# Morphz maintenance and release tooling, verified

A Dafny model of the parts of the Morphz repository that move data, delete files or decide releases, with
proofs about every run or every input. `dafny verify dfyconfig.toml` checks all of it.

- **Cutovers** (`BookmarkMigration.dfy`, `ReadIds.dfy`, `NotificationMigration.dfy`). Two one-time scripts copy
  data from the old workspace database into the Browser and Platform stores, verify the copy and only then
  clear the old data. Each query of the snapshot and each transaction is one event; crashes, retries and foreign
  writes to the old workspace may fall between any two. The methods of the two `Databases` classes are the
  scripts' loops and are proved to be exactly those events. The read-marker translation is modelled with its
  nested loops.
- **Collector** (`MachO.dfy`, `CargoNames.dfy`, `TargetDisk.dfy`, `Inspection.dfy`, `Collector.dfy`,
  `CollectorTexts.dfy`, `Collection.dfy`). The bounded Mach-O reader, and the collector of superseded object files on a disk that
  others may change between any two of its observations. The disk keeps every state it went through. Others may
  do anything that keeps three laws: a signature (device, inode, size, two times in nanoseconds, link count)
  that has left its path does not come back to it; two names of one inode are one file, counted by its links;
  and a file keeps its signature only together with all its names. One look at a path, its kind and its status,
  is one observation, and a recheck and its unlink are atomic.
- **Release gates** (`ReleaseCi.dfy`, `NodeShards.dfy`). The release admission with its double read against a
  service that changes over time, and the shard gate that accepts only exact partitions of the inventory.
- **Generators** (`Graphs.dfy`, `StoreCodegen.dfy`, `Licenses.dfy`, `LicenseBundle.dfy`). Two worklists over
  arbitrary graphs, and the bundle with its labels and its index in both directions.
- **Fault proxy, relay and soak** (`Frames.dfy`, `FaultProxy.dfy`, `Relay.dfy`, `SoakModel.dfy`). Frame
  reassembly from chunks, the fault gate and its job ordinals, the relay that can hold one reply, and the
  accounting of a whole soak run.

`Prelude.dfy`, `Orders.dfy` and `Numerals.dfy` hold shared definitions: distinct lists, elements picked in
order, sorting and its uniqueness, decimal text.

Abstractions: a parsed document is a value whose `layout` part stands for all that parsing forgets, so equality
of bodies is equality of texts. SHA-256 is injective where the scripts rely on it, and a parameter of the bundle.
UTF-8 validity, JSON envelopes, license texts, the process list, clocks and the answers of GitHub are parameters.
A failed assertion or a raised error is a `None`, a `false` or a rejecting constructor.

Five properties one might expect are false of the code, and the model says exactly when they hold.

- The relay delivers a whole reply only if the hold flag does not change under it: `ReleaseTooEarlyLosesTheReply`
  and `SecondHoldReordersTheReply` are runs that fail without an error. `EndedFreeIsWholeIff`, `OrderIsKeptIff`
  and, for replies that are one frame, `NothingPassedIff` give the conditions, and `EveryByteIsAccountedFor` where
  each byte is.
- A dispatched frame followed by one more chunk is dispatched all the same, and the socket is then destroyed;
  a frame followed by extra bytes in its last chunk is not dispatched at all (`BoundaryDecides`).
- Job keys join two ids with a colon. A call is safe from sharing its key, and so its ordinal, with another exactly
  when neither of its ids has a colon (`KeyIsSharedIff`).
- A bookmark cutover that nobody disturbs can fill the Browser store and still never clear the old list, exactly
  when all else is ready and the old revision is already the largest safe integer (`FillsWithoutClearingIff`,
  `NotReadyNeverClears`).
- A cleanup limit does not bound a stage that blocks: it outlasts its limit, and may still succeed, exactly when its
  synchronous part does (`OverrunIffBlocked`, `LimitsHoldIff`).

## Model

| member | source | states |
|---|---|---|
| `BookmarkMigration.ExactRowIsStores` | application/scripts/migrate-bookmarks-once.ts:45-47 | the positional comparison of a row holds exactly when the row, read back by column name, is that bookmark of that tenant in all thirteen columns |
| `BookmarkMigration.InsertedRowIsExact` | application/scripts/migrate-bookmarks-once.ts:116-125 | the row an insert writes passes the comparison a retry makes, and stores the bookmark column by column |
| `BookmarkMigration.MergeOneIff` | application/scripts/migrate-bookmarks-once.ts:119-126 | one pass of the insert loop succeeds exactly when the bookmark is admissible (same row present, or nothing under the key, column checks met and no active row with its owner and url); then the table stays valid, keeps every row and gains at most that key |
| `BookmarkMigration.MergeAllIff` | application/scripts/migrate-bookmarks-once.ts:110-134 | the transaction commits exactly when the snapshot is compatible with the table (each bookmark admissible, equal ids only for equal bookmarks, no two rivals for one active url); it then holds all bookmarks, keeps all earlier rows and adds no other key |
| `BookmarkMigration.MergeAllTwice` | application/scripts/migrate-bookmarks-once.ts:119-126 | a table that already holds the snapshot is left as it is by another transaction |
| `BookmarkMigration.MergeAllRepeats` | application/scripts/migrate-bookmarks-once.ts:110-149 | the merged table is a fixed point of merging and passes verification |
| `BookmarkMigration.AllExactIsHasAll` | application/scripts/migrate-bookmarks-once.ts:136-149 | the verification pass accepts exactly when every bookmark is stored with all columns equal |
| `BookmarkMigration.StepKeepsSafe` | application/scripts/migrate-bookmarks-once.ts:53-184 | every transaction, crash and foreign write keeps the table valid, keeps what a verified attempt relies on, and changes no Browser row |
| `BookmarkMigration.RunKeepsRows` | application/scripts/migrate-bookmarks-once.ts:53-184 | over every run of attempts, crashes, retries and foreign writes no Browser row is overwritten or deleted |
| `BookmarkMigration.ClearingIsSafe` | application/scripts/migrate-bookmarks-once.ts:58-183 | over every run, with foreign writes also between the separate queries of the snapshot, whenever the migration changes the old workspace, the body it replaces is the one it read, every bookmark of it is in the Browser store with all columns equal, and the change is exactly an empty list and the next revision |
| `BookmarkMigration.NoBookmarkIsLost` | application/scripts/migrate-bookmarks-once.ts:53-184 | with no foreign writer, at every point of every run each initial bookmark is in the old body or in the Browser store |
| `BookmarkMigration.RunStaysOnTheWay` | application/scripts/migrate-bookmarks-once.ts:53-184 | with no foreign writer and a ready start, every reachable state has one of two Browser tables and one of two old bodies, and reports the move at most once |
| `BookmarkMigration.AttemptFinishes` | application/scripts/migrate-bookmarks-once.ts:53-184 | one uninterrupted attempt from any such state ends with both stores migrated |
| `BookmarkMigration.AttemptClearsIffReady` | application/scripts/migrate-bookmarks-once.ts:53-184 | an undisturbed attempt clears the old list exactly when there is something to move, nothing in flight, a compatible target and a revision that can still grow |
| `BookmarkMigration.FillsWithoutClearingIff` | application/scripts/migrate-bookmarks-once.ts:109-182 | an undisturbed attempt adds rows and yet leaves the old body exactly when all else is ready, some bookmark is new to the table, and the revision is the largest safe integer |
| `BookmarkMigration.NotReadyNeverClears` | application/scripts/migrate-bookmarks-once.ts:53-184 | an attempt that is not ready never clears, however often it is broken off and retried |
| `BookmarkMigration.Convergence` | application/scripts/migrate-bookmarks-once.ts:53-184 | any broken-off attempts and then a completed one reach the stores of a single uninterrupted attempt; the revision moves by exactly one, other workspace fields stay, and the reports of the whole run are those from before, the number of bookmarks once, at the first clearing, and then zeros of attempts that found the list empty |
| `BookmarkMigration.SettledStaysSettled` | application/scripts/migrate-bookmarks-once.ts:77-79 | once the list is empty, over every later run neither store changes, and the reports are one 0 for each identity read that directly follows a body read of its attempt, and nothing else |
| `BookmarkMigration.RefusedStaysRefused` | application/scripts/migrate-bookmarks-once.ts:60-79 | a body the schema refuses is never changed and never reported, over every run |
| `BookmarkMigration.ClearedReportsOnce` | application/scripts/migrate-bookmarks-once.ts:53-184 | in every run that changes the old workspace: the first change is a clearing, nothing was reported before it, the clearing reports the number of bookmarks, and all later reports are zeros, one for each identity read that follows a body read |
| `BookmarkMigration.AttemptEnds` | application/scripts/migrate-bookmarks-once.ts:53-184 | how an undisturbed attempt leaves both stores, said of the bookmarks, the table and the revision alone |
| `BookmarkMigration.MergedIsNewIff` | application/scripts/migrate-bookmarks-once.ts:119-126 | a transaction changes the table exactly when some bookmark of the snapshot has no row yet |
| `BookmarkMigration.Databases.CommitBrowser` | application/scripts/migrate-bookmarks-once.ts:109-134 | the loop of reads and inserts commits exactly the merged table, or leaves the table alone |
| `BookmarkMigration.Databases.VerifyBrowser` | application/scripts/migrate-bookmarks-once.ts:136-149 | true exactly when the store holds every bookmark in all columns |
| `BookmarkMigration.Databases.CompareAndClear` | application/scripts/migrate-bookmarks-once.ts:151-182 | clears exactly when the body is still the one read and the cleared body passes the schema; otherwise changes nothing |
| `BookmarkMigration.Databases.MigrateOnce` | application/scripts/migrate-bookmarks-once.ts:53-184 | an attempt alone is exactly the three queries and three transactions of the run model; it returns 0 exactly for an accepted body with an empty list, the number of its bookmarks exactly when it was ready, and throws otherwise; both stores end as the columns, the compatibility and the revision say, with no reference to the steps |
| `ReadIds.View.StartIsLongest` | application/scripts/migrate-notifications-once.ts:59-67 | the reverse scan stops before the longest suffix of versions in the current phase |
| `ReadIds.View.RunIsLongestSuffix` | application/scripts/migrate-notifications-once.ts:59-68 | a suffix is the run exactly when all of it is in the current phase and the version before it is not; the entry revision is its first, or the artifact's own when it is empty |
| `ReadIds.EntryIsNeverLegacy` | application/scripts/migrate-notifications-once.ts:69-81 | no entry id is a legacy id of any notification, since phase tuples have three or five parts |
| `ReadIds.LiveViewsExact` | application/scripts/migrate-notifications-once.ts:30-60 | the loops meet exactly the artifacts of the principal's projects, seen by a human actant of the principal, that are in some phase |
| `ReadIds.LastOwnerDecides` | application/scripts/migrate-notifications-once.ts:73-81 | the table sends an id to the entry id of the last notification, in loop order, that has it |
| `ReadIds.LookupIsLastOwner` | application/scripts/migrate-notifications-once.ts:73-81 | every key of the table has such a last owner, and its value is that owner's entry id |
| `ReadIds.TranslationIsExact` | application/scripts/migrate-notifications-once.ts:84-90 | an id is in the result exactly when it is the entry id of the last live notification that has some saved id as entry or as legacy id of its run |
| `ReadIds.TranslationIsInOrder` | application/scripts/migrate-notifications-once.ts:84-90 | the result lists its ids at strictly increasing positions of the saved list, each at the first position whose saved id becomes it, and every saved id that becomes something has it in the result |
| `ReadIds.TranslationIsDetermined` | application/scripts/migrate-notifications-once.ts:84-90 | no other list meets that: contents and order are determined |
| `ReadIds.LivesInOrder` | application/scripts/migrate-notifications-once.ts:39-60 | the live views are met in loop order: artifacts as listed and, for each, the human actants of the principal as listed, every live one once |
| `ReadIds.SamePhaseIff` | application/scripts/migrate-notifications-once.ts:42-64 | two task contents are in one phase exactly when both ask the human with equal assignment, waiting and run request, or both are deliveries to the creator with equal run request and results, or neither notifies |
| `ReadIds.IdsOfView` | application/scripts/migrate-notifications-once.ts:69-81 | which ids a live notification covers, by what is hashed: the artifact, the entry revision and the current phase value; or a version of the run, its revision, and the value with its priority appended |
| `ReadIds.EntryMapsToItself` | application/scripts/migrate-notifications-once.ts:73-74 | the entry id of a live notification is its own translation |
| `ReadIds.TranslationIsIdempotent` | application/scripts/migrate-notifications-once.ts:84-90 | the result has no duplicates, and translating it again returns it unchanged, in the same order |
| `ReadIds.CoveredByOneView` | application/scripts/migrate-notifications-once.ts:39-83 | with one human actant and distinct artifact ids, an id belongs to at most one live notification |
| `ReadIds.RunCollapses` | application/scripts/migrate-notifications-once.ts:73-90 | all saved ids of one run, entry and legacy alike, collapse to its single entry id |
| `ReadIds.EarlierVisitIsDropped` | application/scripts/migrate-notifications-once.ts:63-90 | however many humans the principal has: if every live view of an artifact left the phase again after a version, any saved list translates as it does without the ids that carry that version's revision, legacy and entry alike |
| `ReadIds.CollectRun` | application/scripts/migrate-notifications-once.ts:62-67 | the scan with its break, reversed back, is the run |
| `ReadIds.RecordArtifact` | application/scripts/migrate-notifications-once.ts:39-83 | the loop over humans extends the table of all earlier live notifications by those of this artifact |
| `ReadIds.Rewrite` | application/scripts/migrate-notifications-once.ts:84-90 | map, filter and Set give the translated ids in order of first occurrence |
| `ReadIds.CurrentReadIds` | application/scripts/migrate-notifications-once.ts:25-91 | the nested loops return the translation: every id that some saved id becomes, each once, in the order in which they first come up in the saved list, and no other id |
| `NotificationMigration.InsertReadsIntoEmpty` | application/scripts/migrate-notifications-once.ts:224-225 | a duplicate-free list inserted where nothing was gives exactly the rows numbered from one |
| `NotificationMigration.MergeAllKeepsOrder` | application/scripts/migrate-notifications-once.ts:206-226 | the tables keep listing each principal's reads in strict read order |
| `NotificationMigration.MergeOneFacts` | application/scripts/migrate-notifications-once.ts:206-226 | one principal: an equal state is kept, a different one refuses; with no preference the state is held exactly when no stray read rows were there; other principals are untouched |
| `NotificationMigration.MergeAllFacts` | application/scripts/migrate-notifications-once.ts:187-234 | a committed transaction only adds, and holds every state exactly when the target had nothing or the same for each principal; principals without a state are untouched |
| `NotificationMigration.MergeAllTwice` | application/scripts/migrate-notifications-once.ts:206-226 | a target that holds every state is left as it is |
| `NotificationMigration.RemoveAllFacts` | application/scripts/migrate-notifications-once.ts:274-279 | the old rows go all together or not at all, exactly when each is still there with its body, and no other row goes |
| `NotificationMigration.StatesOfFacts` | application/scripts/migrate-notifications-once.ts:123-142 | the states are one for each notification row and nothing else, each computed from that row |
| `NotificationMigration.StatesOfExact` | application/scripts/migrate-notifications-once.ts:123-142 | the states are those of the notification rows at increasing positions, each with the mode, principal and translation of its own row; there are none exactly when some such row cannot be accepted |
| `NotificationMigration.MergeOneIff` | application/scripts/migrate-notifications-once.ts:206-226 | one state is written exactly when the target has it already, or has no preference for the principal and no read row with one of its ids or of the numbers it would take |
| `NotificationMigration.InsertReadsIff` | application/scripts/migrate-notifications-once.ts:222-226 | the insert loop gets through exactly when no id and no number it uses is taken |
| `NotificationMigration.StatesOfDistinct` | application/scripts/migrate-notifications-once.ts:116-142 | distinct row names give one state per principal, each with a duplicate-free read list |
| `NotificationMigration.StepKeepsSafe` | application/scripts/migrate-notifications-once.ts:94-289 | every transaction, crash and foreign write keeps what a verified attempt relies on and removes or changes no Platform row |
| `NotificationMigration.RunKeepsRows` | application/scripts/migrate-notifications-once.ts:94-289 | over every run Platform rows are only added, and each principal's reads stay in strict read order |
| `NotificationMigration.ClearingIsSafe` | application/scripts/migrate-notifications-once.ts:99-287 | over every run, with foreign writes also between the separate queries of the snapshot, whenever old rows are removed, the workspace body and every row body are those the states were computed from; the target holds for each the mode (off for high and off, all for all), revision 1 and exactly the translated ids in order; and exactly the snapshot's notification rows go |
| `NotificationMigration.AttemptClearsIffReady` | application/scripts/migrate-notifications-once.ts:94-289 | an undisturbed attempt removes the rows exactly when it is ready; stray read rows or another preference of one principal keep every old row |
| `NotificationMigration.NotReadyNeverClears` | application/scripts/migrate-notifications-once.ts:187-261 | retries never remove rows from a cutover that is not ready; a refused target stays refused |
| `NotificationMigration.Convergence` | application/scripts/migrate-notifications-once.ts:94-289 | broken-off attempts and then a completed one reach the stores of one uninterrupted attempt: every notification row is gone and migrated, all other rows stay, and the reports of the whole run are those from before, the number of notification rows once, at the first removal, and then zeros |
| `NotificationMigration.SettledStaysSettled` | application/scripts/migrate-notifications-once.ts:143-143 | once no notification row is left, over every later run neither store changes, and the reports are one 0 for each attempt that reads body, identity and rows, and nothing else |
| `NotificationMigration.ClearedReportsOnce` | application/scripts/migrate-notifications-once.ts:94-289 | in every run that changes the old workspace: the first change removes the rows, nothing was reported before it, it reports their number, and all later reports are zeros of attempts that got to read the rows |
| `NotificationMigration.OnceIsMigrated` | application/scripts/migrate-notifications-once.ts:94-289 | a ready attempt leaves, for every notification row, the preference and the reads it calls for, and of the old rows exactly the others |
| `NotificationMigration.Databases.CollectStates` | application/scripts/migrate-notifications-once.ts:110-142 | fails exactly when some notification row has an unknown principal, a malformed body, too many or duplicate ids; otherwise one state for each notification row, in row order, with its principal, name, body, the new mode and the translated ids |
| `NotificationMigration.Databases.CommitPlatform` | application/scripts/migrate-notifications-once.ts:187-234 | the two nested loops commit exactly the merged tables, or leave them alone |
| `NotificationMigration.Databases.VerifyPlatform` | application/scripts/migrate-notifications-once.ts:236-261 | true exactly when every state is held |
| `NotificationMigration.Databases.CompareAndRemove` | application/scripts/migrate-notifications-once.ts:263-287 | removes exactly the rows of the states when the workspace text is unchanged and every row is still there; otherwise changes nothing |
| `NotificationMigration.Databases.MigrateOnce` | application/scripts/migrate-notifications-once.ts:94-289 | an attempt alone is exactly the four queries and three transactions of the run model; it returns 0 exactly for a valid workspace without notification rows, their number exactly when it was ready, and throws otherwise |
| `MachO.MachoObjects` | scripts/prune_cargo_target.py:30-68 | for every byte image: accepted exactly when it is readable, and then the result is exactly the set of NUL-ended strings of all N_OSO entries |
| `MachO.ReadableIsBounded` | scripts/prune_cargo_target.py:30-58 | no image beyond 10000 commands, 16 MiB of commands, 128 MiB of symbols or of strings is accepted, and both tables lie in the file |
| `MachO.FieldsOfTheFormat` | scripts/prune_cargo_target.py:36-63 | where the reader finds its numbers: four bytes with the lowest first, the four fields of the symbol table command, and of an entry its string index and its type |
| `MachO.WalkStaysInside` | scripts/prune_cargo_target.py:40-47 | an accepted walk moves at least eight bytes a command and each of its commands ends inside the buffer |
| `MachO.WalkCommands` | scripts/prune_cargo_target.py:40-50 | the loop accepts exactly the walkable command buffers and returns their last symbol table |
| `MachO.CollectNames` | scripts/prune_cargo_target.py:59-68 | the loop refuses exactly when some N_OSO entry has no decodable name, and otherwise returns exactly the names |
| `MachO.LayoutIsRead` | scripts/prune_cargo_target.py:30-68 | on every well-formed layout of header, commands, symbols and strings, in any order in the file, the image is readable and its names are exactly those laid out |
| `MachO.OffsetOfLayout` | scripts/prune_cargo_target.py:40-47 | the walk over laid-out commands stops at each command's own start |
| `MachO.SymtabOfLayout` | scripts/prune_cargo_target.py:45-50 | it takes up the last symbol table command and passes by all others |
| `MachO.SymbolFields` | scripts/prune_cargo_target.py:60-63 | a symbol's string index and type are read back as laid out |
| `MachO.NameImageRoundTrip` | scripts/tests/test_prune_cargo_target.py:19-28 | for every list of names, the image the fixture writes is read back as exactly those names |
| `Collection.Collect` | scripts/prune_cargo_target.py:115-205 | whatever others do, every unlink is on the disk's record and was justified on states the disk went through in this order: the executables inspected, the passes over, the names read, the executables rechecked, the object unlinked; the object is as scanned, the evidence of its group as it was when the names were read, and no inspected executable, all of them unchanged at the recheck, names it; on texts alone, no name its artifact lists has the object's file name as its last component or is its path, the path stands in no debug map of an inspected executable, and the artifact, dep file and completed targets are those of its stem and hash; every prefix of the log is within the byte budget; a finished report has the log's totals; on a quiet disk it finishes exactly when there is a fingerprint directory and all executables can be read, counts exactly the disposable objects and readable groups, an uncapped apply removes exactly those objects, and under a cap whatever is left would not have fitted |
| `Inspection.InspectOne` | scripts/prune_cargo_target.py:138-151 | one file: which are opened, which inodes are remembered, and which states its status, magic and debug map were read in |
| `Inspection.VisitGivesProof` | scripts/prune_cargo_target.py:141-151 | an executable that stands unchanged gets its proof at the first visit to its inode, under whichever of its names, and what was read there is its own debug map |
| `Inspection.SurveyStep` | scripts/prune_cargo_target.py:138-151 | every visit keeps that executables with a fresh inode that have stood unchanged since they appeared have a proof once their inode was seen, and that whatever stood before its visit was seen, whatever others do |
| `Inspection.InspectExecutables` | scripts/prune_cargo_target.py:130-151 | every Mach-O executable that appeared, with an inode no executable had before, no later than its directory was listed, and stood unchanged to the end of the pass, has a proof, and every proof's debug map is protected; on a quiet disk the protected set is exactly the union of all debug maps, and the pass succeeds exactly when all can be read |
| `Inspection.CheckExecutables` | scripts/prune_cargo_target.py:187-188 | a passed check saw every proof hold in some state since it began |
| `Inspection.RecheckShields` | scripts/prune_cargo_target.py:187-188 | after a passed check, for the state in which it began: every inspected executable carried its signature and its whole debug map is protected, and so for every executable that lasted through the inspection |
| `Collector.ScanObjects` | scripts/prune_cargo_target.py:152-160 | groups hold only old singly linked objects of their stem, each once and with the status it had in some state of the scan; on a quiet disk exactly those |
| `Collector.CompletedFingerprints` | scripts/prune_cargo_target.py:161-171 | each listed path was, in some state since the collection began, a completed target of its hash; on a quiet disk a hash is listed exactly when some unit of it has one |
| `Collector.EvidenceIsOwn` | scripts/prune_cargo_target.py:179-186 | while the snapshot holds, the artifact, the dep file and the completed targets stand as they did when the names were read, and the names and the time are the artifact's own |
| `Collector.PrepareGroup` | scripts/prune_cargo_target.py:173-186 | the snapshot is of artifact, dep file and completed targets, every signature taken before the artifact's magic, its names and its time were read in this order; on a quiet disk a group is ready exactly when artifact, dep file, fingerprint and names are there |
| `Collector.RemovalJustified` | scripts/prune_cargo_target.py:189-202 | an object that passed the filters and the recheck is old, singly linked, as scanned, not newer than its artifact and not named by it; artifact, dep file and completed targets stand as they did when the names were read; and no inspected executable, all unchanged at the recheck of the group, and none that lasted through the inspection names it |
| `Collector.Dispose` | scripts/prune_cargo_target.py:190-202 | an object is filtered, counted only, found changed, or unlinked, and an unlink directly follows a state in which it and the whole evidence of its group are intact |
| `Collector.ConsiderObject` | scripts/prune_cargo_target.py:189-204 | one object keeps the books and the justification of every unlink, and on a quiet disk counts and removes exactly as the filters and the budget say |
| `Collector.ArtifactsAreNotObjects` | scripts/prune_cargo_target.py:173-175 | artifacts and dep files are never objects, so no unlink can remove the evidence of a group |
| `CargoNames.ObjectNamesEnd` | scripts/prune_cargo_target.py:22-22 | an object name ends in .o and its first group is a stem with sixteen hexadecimal digits |
| `CargoNames.ObjectStemExact` | scripts/prune_cargo_target.py:22-22 | the first group of the object pattern is the longest beginning of a name without line breaks that is a stem and leaves an object tail |
| `CargoNames.AfterLastDashExact` | scripts/prune_cargo_target.py:171-176 | what follows the last dash: a tail without dashes is it exactly when the text is the tail or ends in a dash and the tail |
| `CargoNames.SuffixExact` | scripts/prune_cargo_target.py:139-169 | a suffix is a dot and at least one more character without a dot at the end of the name, behind at least one character |
| `CargoNames.FinalNameExact` | scripts/prune_cargo_target.py:185-185 | the final name of a path is exactly the component, neither empty nor a dot, that stands at the beginning or behind a slash with only slashes and dots behind slashes after it |
| `CollectorTexts.IsNamedExact` | scripts/prune_cargo_target.py:185-190 | an object is named exactly when some listed name has its file name as last component or is its path |
| `CollectorTexts.UnitExact` | scripts/prune_cargo_target.py:171-176 | a fingerprint directory belongs to a stem exactly when it is, or ends in a dash and, the stem's sixteen digits |
| `CollectorTexts.ArtifactExact` | scripts/prune_cargo_target.py:173-174 | the artifact of a stem is the file of that name, or else the library of that name |
| `CollectorTexts.TargetExact` | scripts/prune_cargo_target.py:161-176 | a stem has a fingerprint exactly when some unit directory of its hash has a completed target of sixteen bytes |
| `CollectorTexts.PublishedExact` | scripts/prune_cargo_target.py:135-148 | an executable is a Mach-O file in one of the three directories with no suffix, .dylib or .so |
| `CollectorTexts.RemovalTexts` | scripts/prune_cargo_target.py:172-202 | a justified removal, said of file names alone: which names spare an object, and whose artifact, dep file and targets its evidence is |
| `CollectorTexts.DisposableOnTexts` | scripts/prune_cargo_target.py:115-205 | what a collection may count on a quiet disk, said of file names, times, links and contents alone |
| `TargetDisk.Disk.Remove` | scripts/prune_cargo_target.py:202-202 | unlinking a singly linked file keeps the laws of the disk and records the state it was removed from |
| `Collection.CollectObjects` | scripts/prune_cargo_target.py:189-204 | on a quiet disk the loop counts exactly the disposable objects of its stem |
| `Collection.CollectStem` | scripts/prune_cargo_target.py:172-204 | on a quiet disk a readable group is counted once with all its disposable objects, and an unreadable one has none |
| `Collection.PassedIffNotDisposable` | scripts/prune_cargo_target.py:190-191 | in a readable group the filter keeps exactly the objects that are not disposable |
| `Collection.GroupUnaffected` | scripts/prune_cargo_target.py:172-186 | unlinking objects leaves every group's evidence as it was |
| `Collection.AllAreCounted` | scripts/prune_cargo_target.py:172-204 | after all groups everything disposable has been counted, and nothing else |
| `Collection.ApplyRemovesWhatDryRunCounts` | scripts/prune_cargo_target.py:115-205 | on the same quiet disk an uncapped apply removes exactly the set a dry run counts, with equal counts, bytes and groups, and leaves all else |
| `ReleaseCi.SelectedIsLatest` | scripts/verify-release-ci.py:62-78 | a selected run is a returned, matching, successful push run, and no returned matching run has a greater id and attempt |
| `ReleaseCi.MatchingExact` | scripts/verify-release-ci.py:62-78 | the filter keeps exactly the runs of this commit, branch, event and repository |
| `ReleaseCi.SelectRunExact` | scripts/verify-release-ci.py:62-78 | what is selected is the first of the latest push runs of the target over all pages, and nothing exactly when that run has not succeeded or there is none |
| `ReleaseCi.CheckEachJob` | scripts/verify-release-ci.py:86-98 | accepts exactly when ids are valid and distinct and every job belongs to this run, attempt and commit and passed |
| `ReleaseCi.CheckRequired` | scripts/verify-release-ci.py:99-105 | accepts exactly when every required name is met by some job |
| `ReleaseCi.VerifyJobs` | scripts/verify-release-ci.py:81-105 | accepts exactly when, on the pages as returned, the first page's total is the number of jobs and not 0, no two places hold one id, every job is of this run, attempt and commit and passed, and every required name is met |
| `ReleaseCi.InventoryOnPages` | scripts/verify-release-ci.py:81-105 | the checks on the flattened list are these checks on the places of the pages |
| `ReleaseCi.RequiredJobSucceeded` | scripts/verify-release-ci.py:81-105 | in an accepted inventory each required name is met by a job of this very run, attempt and commit that succeeded |
| `ReleaseCi.OptionalMeetsNothing` | scripts/verify-release-ci.py:15-44 | the job that may be skipped meets none of the required names |
| `ReleaseCi.DoubleReadSound` | scripts/verify-release-ci.py:108-129 | if the latest matching run never goes back, the run whose jobs were checked was the latest matching run at every instant between the two selections |
| `ReleaseCi.CheckWorkflow` | scripts/verify-release-ci.py:113-127 | returns a run admitted by the three reads, and nothing only when no run is admitted by them |
| `ReleaseCi.Verify` | scripts/verify-release-ci.py:108-129 | admits exactly when the target is well formed and both workflows are admitted, with one receipt for each, in order |
| `ReleaseCi.AcceptedReleaseIsSound` | scripts/verify-release-ci.py:108-129 | an accepted release names, for each workflow and each instant of its interval, a push run of that commit, branch and repository with no later one in any returned page, and each required job of that run is on a page and succeeded on the target commit |
| `NodeShards.Verify` | scripts/verify-application-node-shards.py:53-68 | accepts exactly when the records are as many as shards, valid, pairwise apart, and their files are the inventory; every record then ran cleanly for this commit, and the summary has the commit, the size of the inventory, all shards in order, and the sums of passed and omitted cases |
| `NodeShards.ValidExact` | scripts/verify-application-node-shards.py:26-50 | the checks of one record spelled out: commit, counts, skips, coordinate, inventory and executed files |
| `NodeShards.AcceptedExact` | scripts/verify-application-node-shards.py:53-68 | two or four records, each admissible, no shard and no file twice, and every expected file in one of them |
| `NodeShards.SummaryIsExact` | scripts/verify-application-node-shards.py:66-68 | each field of the summary by what it counts |
| `NodeShards.Scan` | scripts/verify-application-node-shards.py:57-63 | the loop accepts exactly the valid records with distinct coordinates and disjoint files, and returns their unions |
| `NodeShards.AcceptedIsPartition` | scripts/verify-application-node-shards.py:53-68 | every inventory file was executed by exactly one shard, no other file was, all coordinates are there, and the shard sizes sum to the inventory |
| `NodeShards.EveryShardIsThere` | scripts/verify-application-node-shards.py:53-65 | by pigeonhole, as many distinct valid coordinates as shards are all of them |
| `NodeShards.ValidFilesAreStrictlySorted` | scripts/verify-application-node-shards.py:47-49 | a valid record lists files in strict order, all of them from the inventory, at least one |
| `NodeShards.ApartAddsUp` | scripts/verify-application-node-shards.py:60-63 | for records pairwise apart the coordinates are as many as the records and the file counts add up |
| `NodeShards.OrderDoesNotMatter` | scripts/verify-application-node-shards.py:53-68 | verdict and summary are the same for every order of the records |
| `StoreCodegen.Generate` | morphz/remote_store_codegen.rs:25-113 | the worklist ends on every trait graph; it panics exactly when a trait inherited by RuntimeStore over declared bounds other than Send and Sync is unregistered or has an item that is no method, or a forwarded method that is synchronous or has an unnamed argument; otherwise it visits each inherited trait once and emits what they hold |
| `StoreCodegen.PushSupertraits` | morphz/remote_store_codegen.rs:36-43 | pushes exactly the trait bounds other than Send and Sync, at increasing positions of the bounds |
| `StoreCodegen.SupertraitsExact` | morphz/remote_store_codegen.rs:36-43 | the supertraits are the names of those bounds, each as often and in the order in which it is declared |
| `StoreCodegen.InheritedIsReachable` | morphz/remote_store_codegen.rs:25-43 | what the walk reaches is what some chain of declared bounds inherits |
| `StoreCodegen.OperationsInOrder` | morphz/remote_store_codegen.rs:84-85 | a trait's operations are its forwarded methods, each once, in the order of its items |
| `StoreCodegen.EmitTrait` | morphz/remote_store_codegen.rs:46-99 | panics exactly on an item that is no method or a forwarded method that is synchronous or has an unnamed argument; otherwise emits every item in order and the operations of the forwarded ones |
| `StoreCodegen.OperationListExact` | morphz/remote_store_codegen.rs:84-85 | an operation is listed exactly when its trait was visited and declares that method without a special body |
| `StoreCodegen.ImplementationsExact` | morphz/remote_store_codegen.rs:100-112 | an implementation is emitted exactly for visited traits with items, with all of them |
| `StoreCodegen.ImplementedOnce` | morphz/remote_store_codegen.rs:29-32 | no trait is implemented twice |
| `StoreCodegen.OperationListOnce` | morphz/remote_store_codegen.rs:84-85 | no operation is listed twice |
| `StoreCodegen.GeneratedIsComplete` | morphz/remote_store_codegen.rs:25-114 | for any order of the inherited traits: exactly one implementation for each with items and none other, every method in it, and an operation list without duplicates of exactly the non-special methods, all async with named arguments |
| `StoreCodegen.OperationTextIsInjective` | morphz/remote_store_codegen.rs:84-85 | printed operation names are different for different operations |
| `Licenses.ReachableIds` | scripts/generate-third-party-licenses.py:155-168 | the worklist ends on every graph and computes exactly the packages reachable over edges with some kind that is not dev |
| `Licenses.TargetsExact` | scripts/generate-third-party-licenses.py:160-168 | an edge is followed exactly when some kind of it is not dev, or it has no kinds |
| `Licenses.RustPackages` | scripts/generate-third-party-licenses.py:135-189 | succeeds exactly when there is one Morphz workspace package and a record for everything needed over the resolved nodes; then lists, in id order, exactly what comes from the needed packages outside the workspace that have a source, with the name, version, license or its placeholder, and paths of the last record of their id |
| `Licenses.RootsAreOne` | scripts/generate-third-party-licenses.py:147-153 | there is one root exactly when exactly one listed package is called morphz and is a workspace member, and it is that one |
| `Licenses.NeededIsReachable` | scripts/generate-third-party-licenses.py:145-168 | what the walk reaches is what is needed over chains of the last nodes of each id |
| `Licenses.PackagesByIdExact` | scripts/generate-third-party-licenses.py:144-144 | the record of an id is the last package with it, and there is none only when no package has it |
| `Licenses.NodesByIdExact` | scripts/generate-third-party-licenses.py:145-145 | likewise for nodes |
| `Licenses.EntriesComeFrom` | scripts/generate-third-party-licenses.py:170-189 | an entry is listed exactly when it has the fields of some needed package outside the workspace that has a source |
| `Licenses.EntriesExact` | scripts/generate-third-party-licenses.py:169-189 | an entry is listed exactly when some reachable package outside the workspace with a source has it |
| `LicenseBundle.RenderBundle` | scripts/generate-third-party-licenses.py:69-132 | fails exactly when some package has no license text, and otherwise renders the bundle of the sorted packages: one row for each, in order, with its name and version, its own license expression and the sorted labels of its texts |
| `LicenseBundle.ReadAll` | scripts/generate-third-party-licenses.py:79-92 | the loops fill the texts, their packages and the inventory, and report a missing text exactly when a package has none |
| `LicenseBundle.EntryOrderIsTotal` | scripts/generate-third-party-licenses.py:79-79 | sorting packages by name, version, expression and paths is a total order |
| `LicenseBundle.EntryOrderExact` | scripts/generate-third-party-licenses.py:79-79 | packages are compared by name, then version, then expression, then paths, each as text by the first character that differs |
| `LicenseBundle.SectionsInOrder` | scripts/generate-third-party-licenses.py:97-131 | sections come in the order of their digests, numbered from one, and list their packages in order, each once |
| `LicenseBundle.LabelIsInjective` | scripts/generate-third-party-licenses.py:98-99 | labels of different positions are different, beyond three digits too |
| `LicenseBundle.LabelExact` | scripts/generate-third-party-licenses.py:98-98 | a label is an L and the number in decimal, padded to three digits and longer only without a leading zero |
| `LicenseBundle.SectionTagsAreDistinct` | scripts/generate-third-party-licenses.py:98-99 | no two texts of a bundle have the same label |
| `LicenseBundle.IndexesAgree` | scripts/generate-third-party-licenses.py:112-131 | a text lists a package exactly when an inventory row of that name and version lists the text's label |
| `LicenseBundle.TextsAreExact` | scripts/generate-third-party-licenses.py:79-92 | with collision-free digests each text is printed once, and lists a package exactly when a package of that name and version has a file with that text |
| `LicenseBundle.OrderDoesNotMatter` | scripts/generate-third-party-licenses.py:79-132 | every permutation of the packages gives the same verdict and the same bundle |
| `FaultProxy.Connection.Data` | application/scripts/script-studio-fault-injection.ts:70-83 | a data event changes buffer, dispatched and destroyed, and dispatches, as the frame rules say |
| `FaultProxy.ReaderExplained` | application/scripts/script-studio-fault-injection.ts:66-83 | what any chunk sequence leaves behind: whether it dispatched, what it buffered, and exactly when it was destroyed |
| `FaultProxy.DispatchesExactly` | application/scripts/script-studio-fault-injection.ts:66-83 | a connection dispatches a frame exactly when its first chunks, up to some chunk, are that frame, and otherwise nothing |
| `FaultProxy.ChunkingDoesNotMatter` | application/scripts/script-studio-fault-injection.ts:66-83 | every split of an exact frame dispatches that frame exactly once, and with no empty chunk leaves the socket open |
| `FaultProxy.BoundaryDecides` | application/scripts/script-studio-fault-injection.ts:75-83 | a stream beginning with a frame dispatches it exactly when some chunk ends where the frame ends |
| `FaultProxy.ScriptFaultGate.Pause` | application/scripts/script-studio-fault-injection.ts:32-38 | stops exactly when the gate has not been hit and the point is its own |
| `FaultProxy.ScriptFaultGate.Release` | application/scripts/script-studio-fault-injection.ts:39-41 | ends the wait and keeps the hit |
| `FaultProxy.Proxy.Arrive` | application/scripts/script-studio-fault-injection.ts:92-105 | logs the call, numbers a new read job, asks the gate for its point, and reports unknown operations |
| `FaultProxy.Proxy.Answer` | application/scripts/script-studio-fault-injection.ts:142-144 | asks the gate for the point after a submission |
| `FaultProxy.OrdinalsExact` | application/scripts/script-studio-fault-injection.ts:99-102 | over every run, ordinals are the order of first sight of distinct keys, counted from one |
| `FaultProxy.RetriesKeepTheirOrdinal` | application/scripts/script-studio-fault-injection.ts:99-102 | two read arrivals anywhere in a run ask for the same point exactly when they have the same key |
| `FaultProxy.PausesOnce` | application/scripts/script-studio-fault-injection.ts:32-38 | the run stops exactly at the first event that asks for the gate's point |
| `FaultProxy.AtMostOnePause` | application/scripts/script-studio-fault-injection.ts:32-38 | no run stops twice, whatever is released in between |
| `FaultProxy.HitIsTheCall` | application/scripts/script-studio-fault-injection.ts:32-38 | what the gate records is its point and the call of the event it stops |
| `FaultProxy.HitStays` | application/scripts/script-studio-fault-injection.ts:32-41 | that record stays to the end of the run |
| `FaultProxy.CallsAreLogged` | application/scripts/script-studio-fault-injection.ts:92-105 | the log holds every arriving call, once and in order |
| `FaultProxy.ReadGateStopsAtNewJob` | application/scripts/script-studio-fault-injection.ts:99-102 | a gate at the n-th read stops exactly where the n-th distinct job is first seen; retries cannot take its place |
| `FaultProxy.SubmitGatesStopAtFirst` | application/scripts/script-studio-fault-injection.ts:103-144 | the two submit gates stop exactly at the first submission and at the first answered submission |
| `FaultProxy.HeldExactly` | application/scripts/script-studio-fault-injection.ts:32-41 | the run is held exactly from its pause to the next release, and never again |
| `FaultProxy.KeysCoincideIff` | application/scripts/script-studio-fault-injection.ts:99-99 | two calls share a key exactly when both ids are equal or one job id runs on across a colon into the other's tool call id |
| `FaultProxy.KeyIsSharedIff` | application/scripts/script-studio-fault-injection.ts:99-99 | some other call shares a call's key exactly when one of its two ids has a colon |
| `Relay.ToolProxy.ClientData` | application/scripts/reliability-soak.ts:210-219 | a client chunk is counted, refused beyond the limit, and otherwise kept and forwarded |
| `Relay.ToolProxy.HostData` | application/scripts/reliability-soak.ts:226-235 | a Host chunk is counted, refused beyond the limit, and otherwise buffered or written through by the flag of that moment |
| `Relay.ToolProxy.HostEnds` | application/scripts/reliability-soak.ts:236-276 | a reply ends the client's side, or is held, or fails the relay and destroys both sides |
| `Relay.ToolProxy.ReleaseHostToolResponse` | application/scripts/reliability-soak.ts:278-289 | clears the flag and the slot and writes the held bytes once, if the client is still there |
| `Relay.EveryByteIsAccountedFor` | application/scripts/reliability-soak.ts:202-289 | over every interleaving of connections, holds and releases: on an unbroken connection the delivered bytes are those that met the flag off, followed by the buffered ones exactly when it was held and released |
| `Relay.IntactIffUnbroken` | application/scripts/reliability-soak.ts:202-277 | by what was sent and released alone: a connection is unbroken exactly when nothing closed it, both limits were kept, and a reply ended under the hold was whole, successful and found no other held; and the held reply is the one such an account gives |
| `Relay.FailedExactly` | application/scripts/reliability-soak.ts:244-276 | the relay has failed exactly when some reply ended under the hold and was refused, by what was sent and released alone, and that connection is broken from then on |
| `Relay.WholeReplyArrives` | application/scripts/reliability-soak.ts:226-289 | with the flag fixed to the end of the reply, the client gets the whole reply in order and once: at once when off, and when on nothing before the release and all of it after |
| `Relay.OneReplyIsHeld` | application/scripts/reliability-soak.ts:244-244 | no two connections have a reply held and unreleased |
| `Relay.DeliveryIsFinal` | application/scripts/reliability-soak.ts:278-289 | after the client's side is ended nothing is delivered on it again, by more data or by another release |
| `Relay.EndedFreeIsWholeIff` | application/scripts/reliability-soak.ts:226-240 | a reply that ends with the flag off arrives whole exactly when nothing of it had been buffered |
| `Relay.OrderIsKeptIff` | application/scripts/reliability-soak.ts:226-289 | passed chunks followed by buffered ones are in the Host's order exactly when no chunk passed through after one was buffered |
| `Relay.HeldLateIsWhole` | application/scripts/reliability-soak.ts:226-289 | a held reply that switched from passing to buffering at most once arrives whole and in order |
| `Relay.ReleaseTooEarlyLosesTheReply` | application/scripts/reliability-soak.ts:233-240 | a reply begun under the hold and ended after the release is lost, with no failure reported |
| `Relay.SecondHoldReordersTheReply` | application/scripts/reliability-soak.ts:233-289 | for every request frame, reply frame and later bytes the relay accepts: a frame buffered, the bytes passed, and the reply ended under a second hold delivers the bytes first, with no failure reported; it is the reply exactly when the two commute |
| `Relay.NothingPassedIff` | application/scripts/reliability-soak.ts:226-257 | when the whole reply is one frame and is held at its end, nothing of it passed through exactly when its header did not |
| `Relay.FramedReplyArrives` | application/scripts/reliability-soak.ts:226-289 | a reply that is one frame and whose header was buffered arrives whole, in order and once, nothing before the release and all of it after, whatever the flag did in between |
| `SoakModel.Sampler.constructor` | application/scripts/reliability-soak.ts:290-292 | the budget is three intervals, but at least 180 seconds |
| `SoakModel.Sampler.ResourceSample` | application/scripts/reliability-soak.ts:1336-1344 | an accepted sample stores the new time and maximum; a refused one changes neither |
| `SoakModel.GapsExact` | application/scripts/reliability-soak-model.ts:115-131 | for every run of samples: accepted exactly when the clock never goes back and every gap is within budget, and then the stored maximum is the largest consecutive gap |
| `SoakModel.SpanIsBounded` | application/scripts/reliability-soak-model.ts:115-131 | an accepted run spans at most its samples times the budget |
| `SoakModel.AssertRunComplete` | application/scripts/reliability-soak-model.ts:86-113 | accepts exactly when the duration was reached, a cycle ran, no root is unsettled, the gap is allowed and every required scenario has evidence |
| `SoakModel.SamplesDecideTheGap` | application/scripts/reliability-soak-model.ts:101-107 | the final gap check accepts exactly when every sampled gap is within the allowed one |
| `SoakModel.Race` | application/scripts/reliability-soak-model.ts:146-165 | a stage that finishes or throws without waiting is reported so however long it blocks; a waiting one succeeds exactly when it resolves before the timer can fire, and otherwise reports its own error or the timeout |
| `SoakModel.VerdictsExclude` | application/scripts/reliability-soak-model.ts:146-165 | a stage fails exactly when it throws, its promise is rejected or it times out; one that succeeds has not timed out, and which error is reported is determined |
| `SoakModel.LastsUntilTheFirst` | application/scripts/reliability-soak-model.ts:146-154 | a waiting stage lasts until its promise settles or its timer fires, whichever comes first, and times out exactly when it never settles or settles later |
| `SoakModel.TimesAddUp` | application/scripts/reliability-soak-model.ts:143-166 | times and limits of two stretches of stages add up |
| `SoakModel.OverrunIffBlocked` | application/scripts/reliability-soak-model.ts:146-154 | a stage outlasts its limit exactly when its synchronous part does |
| `SoakModel.LimitsHoldIff` | application/scripts/reliability-soak-model.ts:135-168 | every stretch of stages keeps to its limits together exactly when no stage blocks past its own |
| `SoakModel.FailingExact` | application/scripts/reliability-soak-model.ts:142-167 | the reported positions are all the stages that threw or timed out, in increasing order |
| `SoakModel.RunCleanupStages` | application/scripts/reliability-soak-model.ts:135-168 | every stage is started once, by its own name and in order whatever fails, the failures are exactly reported, and the whole lasts exactly what the stages last one after the other |

## Left out

- The Rust Runtime, the Yao language, the Platform and Browser stores and the Host bridge are not part of this model.
- Smoke, fixture and acceptance scripts, UI and configuration files: process spawning, HTTP and assertions about other code.
- SQL engines: transactions are atomic, with the primary keys, unique indexes and column checks of the two schemas.
- The `updated_at` column of notification preferences: no check reads it.
- Backup files, directory checks, store initialisation and deployment identity of the two cutovers.
- Foreign writers of the Browser and Platform stores during a cutover: foreign writes fall on the old workspace only.
- Fields of the old workspace besides those the translation and the cutovers read are one opaque part of a body.
- Cargo's lock file, symlinked cache directories and the two process checks: the collector takes one busy flag and whether the deps and the fingerprint directory exist; directories themselves are not symbolic links.
- The command line, the stamp file and the target validation of the collector.
- `ar t` and the file formats behind it: an archive's members are given with its content.
- Reading the Mach-O image inside the collector: the debug map is given with a file's content, and the reader is proved on bytes by itself.
- Full regular-expression and path syntax: object names, stems, suffixes and last components are modelled for the separators the scripts meet on macOS.
- Fetching and paging of the release gate: each fetch returns the service's answer at one instant.
- Messages of errors, and which of several failing checks is reported first.
- Capture, size limits and environment decoding of shard records; a record that lacks a key is one broken record.
- Emitted Rust text of the generator besides trait names, methods and operation names; reading and parsing of the trait files.
- The order of implementations and operations among different traits: the generator promises none, and the order of its walk is not stated.
- License file discovery, npm packages, and the Markdown around the rows and sections of a bundle.
- JSON decoding of proxied requests: a call arrives decoded; the forwarding of a call upstream and its reply bytes are not modelled in the fault proxy.
- Half-closing of sockets by the client, and traces and digests of held replies, in the relay.
- Cleanup of the relay directory, terminal-root evidence, resource statistics and the result file of the soak.
- A cleanup stage that goes on after its timeout: only its start, its verdict and the time waited for it are modelled.
- LicenseBundle.TextsAreExact: takes collision-free digests, since equal digests of different texts would share a label.
- ReadIds.RunCollapses: takes one human actant and distinct artifact ids; with several humans the last live view in loop order decides, as `TranslationIsExact` states for all inputs.
- ReadIds.EarlierVisitIsDropped: takes an artifact id and version revisions that are not repeated, and for an empty run an artifact revision of its own, since an id holds no more than artifact, revision and phase.
- NotificationMigration.RunKeepsRows: foreign writers, too, are held to the primary key of the service rows.
- Relay.HeldLateIsWhole: one direction on bytes, since reordered chunks can spell the same bytes; `OrderIsKeptIff` is exact on chunks and `NothingPassedIff` on framed replies.
- Collection.Collect: under interference nothing is promised of an executable that was not inspected because it appeared after its directory was listed, took over the inode of an earlier executable, or changed before the inspection was over.
- Collector.CompletedFingerprints: under interference a completed target's size is checked when it is listed, not again when its signature is taken.
