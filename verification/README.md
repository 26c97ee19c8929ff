# Verified model of a Syncthing port

This project models the pure logic under the Rust port of Syncthing in Dafny 4.11 and proves what
that logic guarantees. Six parts are covered:

- **Three-way text merge.** Two diffs against one base become edit lists, overlapping edits become
  conflict regions, and one sweep with four cursors writes the merged text. The model gives the
  merged text position by position, and decides exactly when the sweep ends.
- **Index replication.** Devices are maps from names to file entries. A peer's index is a list of
  offers, arbitrated by version vector, modification time and first divergent counter. Proved:
  when delivery order does not matter, what one exchange of full indexes achieves, and what an
  index can never do to entries it does not name.
- **Ignore rules and scanning.** A backtracking glob against its declarative meaning, ordered rules,
  the recursive walk against the check of a path with its ancestors, and full scans.
- **Device IDs.** Base 32 (section 6 of RFC 4648) through 32-bit shift buffers, Luhn mod 32 check
  characters, printing and parsing.
- **Delta indexes and the metadata cache.** A peer that overlays the delta holds the folder; an
  evicting cache over disk answers like the plain in-memory store.
- **Retention and restarts.** Staggered pruning of archived versions, and the restart limit of
  supervised tasks over every run.

Code that works by loops and mutation is modelled as methods and classes, each proved against a
specification function or predicate; the lemmas are about those. Module names follow the parts:
`Edits`, `ConflictRegions`, `MergeSweep`, `MergeOutput`, `Merge`, `MergeSides`, `MergeLosses`,
`MergeDiffs`, `MergeExamples`; `Versions`,
`Arbitration`, `Replication`, `Requests`, `Convergence`, `Exchange`; `Glob`, `IgnoreRules`, `ScanTree`,
`Scanner`; `Bits`, `Base32`, `Luhn`, `DeviceIds`; `DeltaIndex`, `Databases`; `Staggered`,
`Supervisor`. `FileTypes`, `Paths`, `Utf8` and `Naturals` hold what they share.

Where a promise fails, the code is modelled as it is, a lemma names an input on which it fails, and
another states exactly when it holds:

- Non-overlapping edits are said to be merged automatically
  (crates/syncthing-sync/src/merge.rs:4). A remote insertion at the start of a local replacement
  makes the sweep loop forever (`HangExample`, `NonOverlappingMergeEndsIff`,
  `TerminatesIffNoHang`). In a merge that ends, an insertion right where a conflict region ends is
  lost (`LossExample`), and so is a remote edit where a local replacement starts. `LinesAccounted`
  accounts for every line, and `OutsideEditsAppliedIff` says exactly when nothing is lost. Changes
  that neither overlap nor touch can conflict, because lines that an insertion or deletion shifted
  count as edited (`ShiftExample`). `ConflictsIff` says of the diffs exactly when a conflict is
  reported, and `AutomaticMergeIff` exactly when two diffs are merged without one.
- A conflict side is said to apply the side's edit (merge.rs:87). Only the first edit inside the
  region is applied (`LaterEditIgnored`, `SideShownIff`, `SideFaithfulIff`).
- Conflicts are said to converge (conflict_resolver.rs:48-49). Three entries can beat each other in a
  circle (`ThreeCycle`), and one version can carry two modification times (`TwoMtimesDiverge`);
  `OrderIndependentIff` says exactly when order does not matter. Two devices that each find a new
  file of one name give it the same version, and no number of index exchanges makes them agree on
  it (`NewFilesStayApart`); `ExchangesConvergeIff` says exactly when exchanges bring agreement.
- `*` is said to match any sequence of characters (ignore.rs:123). A `*` in the text itself can
  prevent that (`GlobExactIff`).
- Staggered retention is said to preserve the oldest version
  (crates/syncthing-versioner/src/staggered.rs:10). It does not (`OldestDropped`, `OldestKeptIff`).
- `max_restarts` is described as the number of restarts within the `reset_after` window
  (supervisor.rs:62). That holds for the supervisor's own windows. `LimitExceededIff` says exactly
  when an arbitrary span of that length can hold more, `SpanHoldsIff` how many more, up to twice as
  many (`DefaultReachesTen`, `ShortWindowExceeded`).
- A peer is said to catch up by a delta. It misses entries that were taken over with another peer's
  low number (`RemoteNumberMissed`, `RemoteEntryReachesIff`).
- The walk and the check of a path with its ancestors are meant to agree. They do for paths without
  a backslash in any component, and only for those (`BackslashDisagrees`, `JudgedAlikeIff`).
- Parsing a device ID is meant to fail with an error. It panics on texts with wide letters in the
  wrong place (`CutInsideLetter`); `FromString` says exactly on which.
- The cache has a soft capacity: an update that exceeds it evicts one folder (database.rs:311-316).
  That does not always free anything, because a deletion can leave an empty folder cached
  (`CapacityExceeded`, `CapacityKeptIff`); `CacheBounded` says how far the capacity can be exceeded.
- A directory that is deleted and made again stays deleted in the store
  (`RecreatedDirectoryStaysDeleted`, `FoundIsLiveIff`).

## Model

| member | source | states |
|---|---|---|
| Edits.FromDiff | crates/syncthing-sync/src/merge.rs:38-55 | builds exactly the edit list of the diff, in which only an equal run that kept its line numbers is left out |
| Edits.PatchRebuildsSide | crates/syncthing-sync/src/merge.rs:38-55 | for any diff that tiles base and side, the edits are in order, in range and disjoint, and applying them to the base rebuilds the side |
| ConflictRegions.OverlapHulls | crates/syncthing-sync/src/merge.rs:63-70 | collects the hull of every overlapping pair and nothing else |
| ConflictRegions.Coalesce | crates/syncthing-sync/src/merge.rs:72-82 | intervals sorted by start become separated intervals with the same union |
| ConflictRegions.FindConflictRegions | crates/syncthing-sync/src/merge.rs:62-83 | sorted intervals with a gap between neighbours, whose union is exactly the union of the hulls of overlapping pairs |
| ConflictRegions.RegionsUnique | crates/syncthing-sync/src/merge.rs:58-83 | that description determines the regions completely |
| ConflictRegions.NothingStraddles | crates/syncthing-sync/src/merge.rs:62-104 | regions lie inside the base and no edit of either side reaches across a region's start or end |
| MergeSweep.BuildSide | crates/syncthing-sync/src/merge.rs:88-104 | one side of a region: the base lines with the first edit that starts inside applied, all slices in range |
| MergeSweep.StepKeepsInv | crates/syncthing-sync/src/merge.rs:162-228 | every round keeps all cursors in range, never passes a region start, and leaves a remote edit behind only if it is trapped |
| MergeSweep.Progress | crates/syncthing-sync/src/merge.rs:162-228 | on an input that does not hang, every round brings the sweep closer to its end |
| MergeSweep.CaughtForever | crates/syncthing-sync/src/merge.rs:187-227 | once a remote insertion is shadowed by a blocked run of local edits, no number of rounds applies it |
| MergeSweep.TerminatesIffNoHang | crates/syncthing-sync/src/merge.rs:162-228 | the sweep ends if and only if no remote insertion sits at the start of a local replacement away from every region with no region following that run of local edits |
| MergeOutput.StepOutput | crates/syncthing-sync/src/merge.rs:162-228 | what has been written plus what the position-by-position meaning still owes never changes |
| MergeOutput.Sweep | crates/syncthing-sync/src/merge.rs:157-228 | writes the position-by-position merge, with one conflict block per region |
| Merge.ThreeWayMerge | crates/syncthing-sync/src/merge.rs:118-235 | the shortcuts for equal and unchanged sides; otherwise the merge of the two edit lists, with conflicts reported if and only if two of their edits overlap |
| Merge.RegionsIffOverlap | crates/syncthing-sync/src/merge.rs:62-83 | there is a region if and only if some local and remote edit overlap |
| Merge.CleanMerge | crates/syncthing-sync/src/merge.rs:157-228 | without overlaps and shadowed insertions the sweep ends, every replacement line of both sides and every untouched base line appears exactly once, each at its place |
| Merge.NonOverlappingMergeEndsIff | crates/syncthing-sync/src/merge.rs:162-228 | when no two edits of the edit lists overlap, the sweep ends if and only if no remote insertion sits at the start of a local replacement |
| MergeDiffs.InsertionMoves | crates/syncthing-sync/src/merge.rs:44 | around an insertion not both neighbouring base lines keep their line numbers |
| MergeDiffs.ConflictsIff | crates/syncthing-sync/src/merge.rs:44-70 | a merge of two diffs reports conflicts if and only if some base line is edited, or kept under another line number, on both sides |
| MergeDiffs.AutomaticMergeIff | crates/syncthing-sync/src/merge.rs:106-117 | two diffs are merged to the end without conflict if and only if no base line is edited or shifted on both sides and no remote insertion sits where the local side edits or shifts lines from that place on |
| MergeExamples.ShiftExample | crates/syncthing-sync/src/merge.rs:44 | for base a b c, local a n b c and remote a b z the sweep ends with a conflict block around lines that only one side touched |
| MergeLosses.LinesAccounted | crates/syncthing-sync/src/merge.rs:157-228 | for every merge, the merged lines and the lost lines together are exactly the conflict blocks, the lines of all edits outside the regions and the base lines no edit covers |
| MergeLosses.OutsideEditsAppliedIff | crates/syncthing-sync/src/merge.rs:176-182 | all edits outside the regions are applied if and only if none that brings lines is an insertion at a region end or a remote edit where a local replacement starts |
| MergeExamples.LossExample | crates/syncthing-sync/src/merge.rs:176-182 | for base a b c, local x y c and remote z b n c, with proper diffs, the inserted line n overlaps nothing, the sweep ends and n is nowhere in the result |
| Merge.OneSideMerge | crates/syncthing-sync/src/merge.rs:162-228 | with edits on one side only the sweep ends and its output is that side's edits applied to the base |
| Merge.UnchangedLocalYieldsRemote | crates/syncthing-sync/src/merge.rs:127-133 | the sweep with an empty local edit list yields the remote text, as the shortcut does |
| MergeSides.OneEditFaithful | crates/syncthing-sync/src/merge.rs:88-104 | with at most one edit in the region, a conflict side shows what that side's own text holds there |
| MergeSides.SideTextInWhole | crates/syncthing-sync/src/merge.rs:85-104 | the side's whole text is what its edits make of the base before the region, then its text of the region, then what they make of the base after it |
| MergeSides.RegionsFitSides | crates/syncthing-sync/src/merge.rs:62-104 | the regions of every merge cut both sides in that way |
| MergeSides.LaterEditIgnored | crates/syncthing-sync/src/merge.rs:89 | with several edits in the region, a line added to the last one is in the side's text and not in the conflict block |
| MergeSides.SideShownIff | crates/syncthing-sync/src/merge.rs:85-104 | for any one input, a conflict side shows the side's text if and only if the later edits in the region leave the base lines after the first edit as they are |
| MergeSides.SideFaithfulIff | crates/syncthing-sync/src/merge.rs:85-104 | conflict sides are faithful for every choice of replacement lines if and only if at most one edit starts inside the region |
| MergeExamples.HangExample | crates/syncthing-sync/src/merge.rs:187-227 | for base a b c, local a b x and remote b n c, with proper diffs and no overlap, the sweep never ends |
| Versions.DominatesAll | crates/syncthing-core/src/types/mod.rs:97-111 | dominance over the listed counters is dominance at every counter, absent ones being zero |
| Versions.LexTotal | crates/syncthing-core/src/types/mod.rs:139-169 | of two different versions exactly one is ahead at the first divergent counter |
| Versions.LexTransitive | crates/syncthing-core/src/types/mod.rs:139-169 | being ahead at the first divergent counter is transitive |
| Versions.DominatesIsLexGreater | crates/syncthing-core/src/types/mod.rs:95-169 | a strictly dominating version is ahead at the first divergent counter |
| Versions.ConcurrentOrder | crates/syncthing-core/src/types/mod.rs:148-169 | gives a direction only for truly concurrent vectors, and then the one of the first divergent counter |
| Arbitration.RemoteWinsConflict | crates/syncthing-sync/src/conflict_resolver.rs:51-62 | the remote side wins by a later modification time, or on a tie by being ahead at the first divergent counter of concurrent versions |
| Arbitration.ExactlyOneBeats | crates/syncthing-sync/src/conflict_resolver.rs:45-62 | of two different versions exactly one beats the other, and both ends compute the same winner |
| Arbitration.BeatsMeans | crates/syncthing-sync/src/index_handler.rs:285-304 | dominance decides first, then modification time, then the first divergent counter |
| Arbitration.BeatsIsKeyGreater | crates/syncthing-sync/src/conflict_resolver.rs:51-62 | if a dominating version is never older, beating is having the larger (seconds, nanoseconds, first divergent counter) |
| Arbitration.BeatsRespectsVersion | crates/syncthing-sync/src/conflict_resolver.rs:51-62 | who beats whom depends on version and modification time alone |
| Arbitration.KeyTransitive | crates/syncthing-sync/src/conflict_resolver.rs:51-62 | the winner key is a transitive order |
| Arbitration.KeyTotal | crates/syncthing-sync/src/conflict_resolver.rs:51-62 | any two entries compare under the winner key, one way only, unless time and version are the same |
| Replication.IndexHandler.ResolveConflict | crates/syncthing-sync/src/conflict_resolver.rs:70-149 | stores the winner of a real conflict, touches nothing else, and does nothing when there is no conflict |
| Replication.IndexHandler.ProcessFile | crates/syncthing-sync/src/index_handler.rs:170-257 | one entry of an index: invalid names and unknown deletions are skipped, the rest arbitrated, and the download decision |
| Replication.IndexHandler.ProcessFiles | crates/syncthing-sync/src/index_handler.rs:161-282 | the entries are processed in order, exactly the wanted ones are collected, and live local-only entries are published for a full index |
| Requests.RequestedExactly | crates/syncthing-sync/src/index_handler.rs:170-257 | an index with distinct names requests exactly, and in order, its live entries with valid names that are new to the folder, strictly newer, different in size or time at the same version, or the winner of a conflict over a text file |
| Requests.RequestedIff | crates/syncthing-sync/src/index_handler.rs:170-257 | the same for one entry, judged by the folder as it was before |
| Requests.ChangedLiveIsRequested | crates/syncthing-sync/src/index_handler.rs:186-257 | whenever processing changes an entry to a live one, it is requested or it was concurrent and no mergeable text |
| Paths.ValidNameIff | crates/syncthing-sync/src/block_server.rs:66-85 | a peer's name is accepted if and only if it has no backslash and no NUL and resolves, inside the folder, to its own segments |
| Replication.TrustsIff | crates/syncthing-sync/src/index_handler.rs:79-113 | a full index is trusted if and only if the folder has at most ten entries or the index at least half as many as the folder |
| Replication.IndexHandler.HandleIndex | crates/syncthing-sync/src/index_handler.rs:55-117 | a foreign folder changes nothing; the safety threshold only decides whether local-only entries are published |
| Replication.IndexHandler.HandleIndexUpdate | crates/syncthing-sync/src/index_handler.rs:125-156 | a foreign folder changes nothing; an update is processed and published and never treated as a full index |
| Replication.UnmentionedUnchanged | crates/syncthing-sync/src/index_handler.rs:79-117 | an index of any size leaves every entry it does not name unchanged |
| Replication.DeletedOnlyByWinner | crates/syncthing-sync/src/index_handler.rs:170-279 | a live entry becomes a tombstone only through a remote tombstone of that name that beat the live entry held when its turn came |
| Convergence.OrderIndependentIff | crates/syncthing-sync/src/index_handler.rs:183-241 | every delivery, in any order and with any repetition, ends in the same version if and only if all entries of some version beat all entries of other versions |
| Convergence.LargestBeatsAll | crates/syncthing-sync/src/conflict_resolver.rs:51-62 | with causal clocks the entry with the largest key beats every other version |
| Convergence.CausalClocksConvergeIff | crates/syncthing-sync/src/conflict_resolver.rs:51-62 | with causal clocks every delivery ends in a given version if and only if all its entries have larger keys than all entries of other versions |
| Convergence.CausalClocksConverge | crates/syncthing-sync/src/conflict_resolver.rs:51-62 | with causal clocks and one modification time per version every delivery to a device that holds the name ends in the version with the largest key |
| Convergence.LateJoinerConvergesIff | crates/syncthing-sync/src/index_handler.rs:243-256 | where one version wins, a device without the name, which ignores tombstones until the first live entry, ends with it if and only if an entry of it comes no earlier than that first live entry |
| Convergence.LateJoinerLargestIff | crates/syncthing-sync/src/index_handler.rs:243-256 | with causal clocks and one modification time per version such a device ends with a largest entry if and only if one comes no earlier than the first live entry |
| Convergence.ProcessIsHeld | crates/syncthing-sync/src/index_handler.rs:161-282 | processing an index acts on each name held as the offers of that name in order |
| Convergence.ProcessIsHeldFromNothing | crates/syncthing-sync/src/index_handler.rs:243-256 | the same for a name not held before |
| Convergence.IndexMessagesStoreWinner | crates/syncthing-sync/src/index_handler.rs:161-282 | a device that holds a name and processes any index messages bringing the same entries of it stores the winning version, where one wins |
| Convergence.IndexMessagesConverge | crates/syncthing-sync/src/index_handler.rs:161-282 | with causal clocks and one modification time per version two such devices store the same version, that of a largest entry |
| Convergence.ThreeCycle | crates/syncthing-sync/src/conflict_resolver.rs:51-62 | without causal clocks three entries beat each other in a circle and the delivery order decides |
| Convergence.TwoMtimesDiverge | crates/syncthing-sync/src/conflict_resolver.rs:51-62 | with one version at two modification times an entry can beat all others and the delivery order still decides |
| Exchange.NeededIffWanted | crates/syncthing-sync/src/index_handler.rs:161-282 | a full index asks for downloads if and only if one of its entries is wanted by the database as it was before |
| Exchange.ExchangeConvergesIff | crates/syncthing-sync/src/index_handler.rs:55-117 | after one simultaneous exchange of full indexes the devices agree on liveness, version and metadata of a valid name if and only if equal versions of it meant equal metadata and deletion before |
| Exchange.ExchangesConvergeIff | crates/syncthing-sync/src/index_handler.rs:55-117 | after any positive number of exchanges the devices agree on a valid name if and only if equal versions of it meant equal metadata and deletion at the start |
| Exchange.NewFilesStayApart | crates/syncthing-sync/src/scanner.rs:254-261 | no number of index exchanges makes two devices agree on a new file that each scanned with different size or time |
| Exchange.SecondExchangeQuietIff | crates/syncthing-sync/src/index_handler.rs:285-304 | a second exchange asks for nothing if and only if no name had equal versions with different size or time and a live entry to ask for |
| Exchange.SecondExchangeChangesNothing | crates/syncthing-sync/src/index_handler.rs:161-304 | a second exchange changes neither database, even where metadata clashed |
| Glob.GlobMatch | crates/syncthing-sync/src/ignore.rs:125-155 | terminates; accepts only what the declarative meaning of the pattern accepts, and all of it when the text has no star |
| Glob.GlobSound | crates/syncthing-sync/src/ignore.rs:123-155 | every accepted text matches the meaning of the pattern |
| Glob.GlobComplete | crates/syncthing-sync/src/ignore.rs:123-155 | every text without a star that the pattern means is accepted |
| Glob.GlobExactIff | crates/syncthing-sync/src/ignore.rs:134-137 | a text is matched as every pattern means if and only if it holds no star |
| IgnoreRules.IgnoreMatcher.AddLine | crates/syncthing-sync/src/ignore.rs:55-83 | a line adds the rule it is parsed into, and blank lines and comments add none |
| IgnoreRules.RenderParse | crates/syncthing-sync/src/ignore.rs:55-83 | writing down the rule a line was parsed into gives the trimmed line back, for every line |
| IgnoreRules.ParseRenderIff | crates/syncthing-sync/src/ignore.rs:55-83 | parsing a written rule gives the rule back if and only if nothing of it is trimmed or reads as another modifier |
| IgnoreRules.IgnoreMatcher.Matches | crates/syncthing-sync/src/ignore.rs:90-110 | a path is ignored if and only if the last rule that matches it is not a negation |
| IgnoreRules.RuleMeans | crates/syncthing-sync/src/ignore.rs:90-194 | on components without a star, an anchored rule matches if and only if the first ones match its pattern one by one, any other rule if and only if some stretch does, and directory-only rules need a directory |
| IgnoreRules.UnanchoredAnywhere | crates/syncthing-sync/src/ignore.rs:157-179 | a rule that is not anchored matches below any further directories |
| IgnoreRules.IgnoredSnoc | crates/syncthing-sync/src/ignore.rs:85-110 | a later rule overrides where it matches and changes nothing elsewhere |
| IgnoreRules.IgnoreMatcher.IsIgnoredWithAncestors | crates/syncthing-sync/src/scanner.rs:67-89 | true if and only if the normalized path or one of the grown prefixes, taken as a directory, is ignored |
| IgnoreRules.AncestorsMeaning | crates/syncthing-sync/src/scanner.rs:56-89 | for ordinary components the check looks at the path and at every directory above it, and at nothing else |
| IgnoreRules.PlainRulesNeedNoAncestors | crates/syncthing-sync/src/ignore.rs:90-110 | with no negated and no directory-only rules the check with ancestors equals the plain check |
| ScanTree.ScanDirectory | crates/syncthing-sync/src/scanner.rs:319-494 | the recursive walk returns the specified list: filtered entries and everything below an ignored directory are left out, contents come before their directory |
| ScanTree.WalkReportsTree | crates/syncthing-sync/src/scanner.rs:319-494 | a walk reports nothing but nodes of the tree, of their own kind, each path once, and everything below a directory before the directory |
| ScanTree.WalkVisitsIff | crates/syncthing-sync/src/scanner.rs:319-494 | a path of any tree is found if and only if no component is filtered by name and the check with ancestors does not ignore it |
| ScanTree.IncrementalAgreesWithWalk | crates/syncthing-sync/src/scanner.rs:644-664 | the two scan paths admit the same files, except those with a hidden, temporary or conflict name on the path, which only the incremental one admits |
| ScanTree.BackslashDisagrees | crates/syncthing-sync/src/scanner.rs:67-89 | for every path with a backslash in a component there are two rules under which the walk finds it and the check with ancestors ignores it |
| ScanTree.WalkAlong | crates/syncthing-sync/src/scanner.rs:319-494 | along one path, with any names, the walk reaches the end if and only if no rule ignores a stage of it |
| ScanTree.JudgedAlikeIff | crates/syncthing-sync/src/scanner.rs:67-89 | walk and check with ancestors judge a path alike under every rule list if and only if no component has a backslash |
| Scanner.DetectAndReorderRenames | crates/syncthing-sync/src/scanner/rename.rs:26-71 | returns the entries with the rename targets moved to the front, the rest in order |
| Scanner.ReorderedIsPermutation | crates/syncthing-sync/src/scanner/rename.rs:26-71 | reordering loses and invents no entry |
| Scanner.RenamedBeforeDeleted | crates/syncthing-sync/src/scanner/rename.rs:20-71 | a live entry with the block hashes of a deleted one comes before every deletion |
| Scanner.ReorderingIsStable | crates/syncthing-sync/src/scanner/rename.rs:54-68 | two renamed files keep their order, and so do two entries of which neither is one |
| Scanner.FolderScanner.FindDeletions | crates/syncthing-sync/src/scanner.rs:215-234 | a tombstone with the next number and an incremented version for every stored live name that vanished and is not being downloaded |
| Scanner.FolderScanner.FindModifications | crates/syncthing-sync/src/scanner.rs:240-263 | a numbered and versioned entry for every found file that is new or changed |
| Scanner.FolderScanner.ScanFolder | crates/syncthing-sync/src/scanner.rs:213-297 | a full scan reports, numbers and stores exactly its deletions and modifications, and moves the counter by their number |
| Scanner.SilentIff | crates/syncthing-sync/src/scanner.rs:213-297 | a scan reports nothing if and only if nothing vanished and nothing changed |
| Scanner.SecondScanSilentIff | crates/syncthing-sync/src/scanner.rs:213-297 | whatever was stored before, a second scan of an unchanged disk reports nothing if and only if entries found under one name agree |
| Scanner.FoundIsLiveIff | crates/syncthing-sync/src/scanner.rs:240-263 | after a scan every found name is stored with the contents found, and live unless it was stored as deleted with the same block hashes |
| Scanner.FoundIsWritten | crates/syncthing-sync/src/scanner.rs:240-263 | a name found once keeps its stored entry if the block hashes are the same, and otherwise gets what was found, at the stored version incremented or at the first version |
| Scanner.GoneIsDeletedIff | crates/syncthing-sync/src/scanner.rs:215-234 | a stored name whose path is gone is deleted afterwards if and only if it was already or is not being downloaded; what was live becomes a tombstone of size 0 without blocks at the incremented version, anything else is unchanged |
| Scanner.ScanNumbers | crates/syncthing-sync/src/scanner.rs:230-258 | the entries a scan reports are numbered from the counter on, each number once and without gap |
| Scanner.RecreatedDirectoryStaysDeleted | crates/syncthing-sync/src/scanner.rs:609-618 | a directory stored as a tombstone stays deleted after it is found again |
| Scanner.ScanBeatsOld | crates/syncthing-sync/src/scanner.rs:213-297 | a scan leaves a stored name as it is or stores an entry that beats the old one at every peer, whatever the clocks say |
| Base32.ToBase32 | crates/syncthing-core/src/device_id.rs:185-207 | the text spells the bits of the bytes, five a character, padded with zero bits, through a wrapping 32-bit buffer |
| Base32.FromBase32 | crates/syncthing-core/src/device_id.rs:210-234 | succeeds if and only if every character is in the alphabet in either case, and yields the whole bytes those bits hold |
| Base32.CodeIff | crates/syncthing-core/src/device_id.rs:215-222 | exactly the characters that are in the alphabet once in upper case have a code |
| Base32.EncodesUnique | crates/syncthing-core/src/device_id.rs:185-207 | bytes have one encoding |
| Base32.DecodesUnique | crates/syncthing-core/src/device_id.rs:210-234 | codes have one decoding |
| Base32.EncodeDecode | crates/syncthing-core/src/device_id.rs:185-234 | decoding what was encoded gives the bytes back |
| Luhn.Luhn32Char | crates/syncthing-core/src/device_id.rs:237-253 | the character that complements the alternately doubled sum modulo 32 |
| Luhn.SubstitutionDetected | crates/syncthing-core/src/device_id.rs:86-106 | replacing one character of a valid group keeps it valid if and only if the value, or for the check character the character, is the same |
| Luhn.SwapDetected | crates/syncthing-core/src/device_id.rs:86-106 | swapping two neighbouring data characters goes unnoticed if and only if their values are equal or those of A and 7 |
| Luhn.LastSwapUndetectedIff | crates/syncthing-core/src/device_id.rs:86-106 | swapping the last data character with the check character goes unnoticed if and only if that character is in upper case and in the alphabet |
| DeviceIds.Luhnify | crates/syncthing-core/src/device_id.rs:269-281 | inserting check characters from the back gives each 13-character group its own check character |
| DeviceIds.VerifyLuhn32Checksum | crates/syncthing-core/src/device_id.rs:86-106 | for ASCII text, true if and only if it has 56 characters and all four groups are valid |
| DeviceIds.Display | crates/syncthing-core/src/device_id.rs:110-130 | prints the base-32 text with check characters, in dashed groups of seven |
| DeviceIds.PrintedShape | crates/syncthing-core/src/device_id.rs:121-128 | a printed ID has 63 characters with a dash exactly after every seven |
| DeviceIds.DecodeHex | crates/syncthing-core/src/device_id.rs:137-142 | succeeds if and only if all digits are hexadecimal, with the byte of each pair |
| DeviceIds.HexValueIff | crates/syncthing-core/src/device_id.rs:138-142 | exactly the hexadecimal digits have a value, in either case |
| Utf8.BoundaryIff | crates/syncthing-core/src/device_id.rs:143-149 | a byte offset is a place to cut if and only if some number of characters fills it |
| DeviceIds.FromString | crates/syncthing-core/src/device_id.rs:135-162 | for any text, parsing panics if and only if 56 bytes of letters and digits are cut inside a character at a group's start or end; otherwise which texts are accepted, which 32 bytes they denote, and that wide letters are rejected |
| DeviceIds.CutInsideLetter | crates/syncthing-core/src/device_id.rs:143-149 | twelve ASCII letters, a letter of two bytes and forty-two more are cut inside that letter |
| DeviceIds.ChecksVerify | crates/syncthing-core/src/device_id.rs:86-106 | added check characters verify, and dropping them gives the data back |
| DeviceIds.VerifiedMeans | crates/syncthing-core/src/device_id.rs:86-106 | a verified text is its data with the check characters those data determine |
| DeviceIds.RoundTrip | crates/syncthing-core/src/device_id.rs:109-163 | parsing the printed form of any 32-byte ID returns that ID |
| DeviceIds.ReprintsIffCanonical | crates/syncthing-core/src/device_id.rs:143-156 | an accepted 56-character ID prints back to the same characters if and only if its data are upper case and the last one's four spare bits are zero |
| DeviceIds.SerializeDeserialize | crates/syncthing-core/src/device_id.rs:165-182 | writing any ID out as text and reading it in again gives that ID, through the printing and parsing methods themselves |
| DeviceIds.IsValid | crates/syncthing-core/src/device_id.rs:73-82 | the validity check never fails |
| DeviceIds.PrintedIsValid | crates/syncthing-core/src/device_id.rs:73-82 | every ID's own printed form passes the validity check |
| Databases.MemoryDatabase.GetFile | crates/syncthing-sync/src/database.rs:88-94 | the first entry of that name in the folder |
| Databases.MemoryDatabase.UpdateFile | crates/syncthing-sync/src/database.rs:104-112 | the entry replaces one of its name or is appended, in that folder only |
| Databases.MemoryDatabase.DeleteFile | crates/syncthing-sync/src/database.rs:121-126 | the entries of that name are gone from that folder only |
| Databases.FindUpsert | crates/syncthing-sync/src/database.rs:104-112 | a lookup after an update finds the new entry under its name and the old answer elsewhere |
| Databases.FindRemove | crates/syncthing-sync/src/database.rs:121-126 | a lookup after a removal finds nothing under that name and the old answer elsewhere |
| Databases.FileSystemDatabase.GetFile | crates/syncthing-sync/src/database.rs:252-269 | the cached entry if there is one, else the file on disk, without touching the cache |
| Databases.FileSystemDatabase.EvictOneFolder | crates/syncthing-sync/src/database.rs:227-238 | drops one cached folder, whichever it is, and its entries from the counter; the disk stays |
| Databases.FileSystemDatabase.UpdateFile | crates/syncthing-sync/src/database.rs:293-319 | the entry is on disk and cached; if a new entry takes the counter above the capacity, one cached folder, whichever it is, is evicted |
| Databases.FileSystemDatabase.DeleteFile | crates/syncthing-sync/src/database.rs:334-351 | the entry is gone from disk and cache, and the counter follows |
| Databases.NextKeepsInv | crates/syncthing-sync/src/database.rs:226-351 | every single-file operation keeps cache, disk, counter and the plain store in agreement |
| Databases.RunsAgree | crates/syncthing-sync/src/database.rs:226-351 | after every run over names that stay distinct on disk both stores answer alike, cached entries equal their disk copies, and the counter is the number of cached entries |
| Databases.CacheBounded | crates/syncthing-sync/src/database.rs:293-351 | over every run the cache exceeds its capacity by at most the number of deletions, and never in runs of updates alone |
| Databases.CapacityKeptIff | crates/syncthing-sync/src/database.rs:311-316 | an update is sure to stay within the capacity if and only if it does not overflow or no other cached folder is empty |
| Databases.CapacityExceeded | crates/syncthing-sync/src/database.rs:340-348 | with capacity one, a run whose deletion leaves an empty cached folder behind ends with two entries cached |
| Databases.NothingDropped | crates/syncthing-sync/src/database.rs:303-316 | an update that does not overflow leaves every other cached entry in the cache |
| Databases.OneFolderDropped | crates/syncthing-sync/src/database.rs:311-316 | an update that overflows drops exactly one folder from the cache and keeps all others |
| Databases.CollisionDisagrees | crates/syncthing-sync/src/database.rs:244-248 | two names that collide once slashes become underscores are confused after a single update |
| Databases.AgreementIff | crates/syncthing-sync/src/database.rs:226-351 | both stores agree on every run over a set of names if and only if those names stay distinct on disk |
| DeltaIndex.FolderStore.AssignSequences | crates/syncthing-sync/src/database.rs:164-168 | entries get consecutive numbers from the folder's counter |
| DeltaIndex.NumberedIs | crates/syncthing-sync/src/index.rs:164-234 | numbering changes nothing but the number, which counts up from the counter |
| DeltaIndex.FolderStore.PersistScan | crates/syncthing-sync/src/scanner.rs:247-297 | a scan's entries are numbered above the counter and stored in one step |
| DeltaIndex.IndexManager.constructor | crates/syncthing-sync/src/index.rs:34-48 | takes over the stored index ID and sequence and knows no peers |
| DeltaIndex.IndexManager.RegisterRemoteIndex | crates/syncthing-sync/src/index.rs:71-79 | remembers the peer's index ID and sequence and nothing else changes |
| DeltaIndex.IndexManager.GetIndexDelta | crates/syncthing-sync/src/index.rs:87-133 | a delta only for a peer registered at the current index ID, with the entries above its sequence |
| DeltaIndex.IndexManager.UpdateIndexId | crates/syncthing-sync/src/index.rs:141-158 | a new ID with sequence numbers from zero, persisted, with the files unchanged |
| DeltaIndex.IndexManager.UpdateIndexWith | crates/syncthing-sync/src/index.rs:164-234 | a batch is numbered from the counter and stored, an ID is drawn only if there is none, and the stored metadata matches |
| DeltaIndex.IndexManager.PrepareIndexForDevice | crates/syncthing-sync/src/index.rs:240-248 | a non-empty delta if one is available, else the full index |
| DeltaIndex.DeltaCompletesIff | crates/syncthing-sync/src/index.rs:87-133 | overlaying the entries above a number completes a mirror if and only if the mirror has no extra names and differs only in such entries |
| DeltaIndex.ApplyTracks | crates/syncthing-sync/src/index.rs:71-248 | every operation keeps a registered mirror completable |
| DeltaIndex.DeltaTheorem | crates/syncthing-sync/src/index.rs:71-248 | after any run of updates, scans, ID rotations and other registrations, overlaying what is prepared on the mirror held at registration gives exactly the folder |
| DeltaIndex.DeltaWhileIdLasts | crates/syncthing-sync/src/index.rs:87-133 | until the index ID changes, a registered device is sent a delta if and only if some entry is numbered above its sequence, and then just those entries under that ID and number |
| DeltaIndex.RemoteNumberMissed | crates/syncthing-sync/src/index_handler.rs:218 | an entry stored with a peer's own number not above the registered sequence is missed whenever another entry makes the delta non-empty |
| DeltaIndex.RemoteEntryReachesIff | crates/syncthing-sync/src/index_handler.rs:218 | after an entry was taken over, every later run completes the mirror if and only if the entry is numbered above the registered sequence or was held already |
| Staggered.FindStepTable | crates/syncthing-versioner/src/staggered.rs:212-219 | the spacing that applies at each age |
| Staggered.PruneGroup | crates/syncthing-versioner/src/staggered.rs:165-198 | removes from a group of several versions exactly those the greedy rule drops, youngest first |
| Staggered.RemovedIff | crates/syncthing-versioner/src/staggered.rs:174-198 | a version is removed if and only if it is not among the kept ones |
| Staggered.KeptSpaced | crates/syncthing-versioner/src/staggered.rs:188-195 | kept versions are unexpired, and neighbours are apart by at least the step at the older one |
| Staggered.YoungestKept | crates/syncthing-versioner/src/staggered.rs:175-186 | with a limit on age nothing older is kept and the youngest version that is not older is kept first; without one, the youngest is |
| Staggered.RemovedNearKept | crates/syncthing-versioner/src/staggered.rs:188-197 | every removed version younger than the limit is less than one step older than a kept one |
| Staggered.PruneIdempotent | crates/syncthing-versioner/src/staggered.rs:165-198 | pruning again at the same time removes nothing |
| Staggered.AtMost219 | crates/syncthing-versioner/src/staggered.rs:46-63 | with the one-year default and no future ages a group of several versions keeps at most 219 |
| Staggered.Reaches219 | crates/syncthing-versioner/src/staggered.rs:46-63 | the bound of 219 is reached |
| Staggered.OldestKeptIff | crates/syncthing-versioner/src/staggered.rs:174-198 | the oldest version survives whichever of the younger ones exist if and only if it is alone, or unexpired and at least its own step older than the next older one |
| Staggered.OldestDropped | crates/syncthing-versioner/src/staggered.rs:10 | of two versions ten seconds apart the oldest is removed |
| Supervisor.SuperviseTask | crates/syncthing-sync/src/supervisor.rs:149-211 | the loop over attempt, restart count and window start follows the step-by-step meaning for every sequence of signals |
| Supervisor.StoppedIff | crates/syncthing-sync/src/supervisor.rs:175-209 | over every run, supervision is stopped if and only if a shutdown comes while it is going, or a success under OnFailure, or any end under Never |
| Supervisor.DelayIsProduct | crates/syncthing-sync/src/supervisor.rs:47-52 | the delay is the initial one times a power of two with exponent at most 31, saturated at the largest duration and capped at the maximum |
| Supervisor.DelayMonotone | crates/syncthing-sync/src/supervisor.rs:47-52 | later attempts never wait less and none waits longer than the maximum |
| Supervisor.DelayDoubles | crates/syncthing-sync/src/supervisor.rs:47-52 | the first delay is the initial one, each of the next 31 doubles up to the maximum, then it stays, with saturation |
| Supervisor.HandleKeepsInv | crates/syncthing-sync/src/supervisor.rs:158-210 | every step keeps restarts inside their windows, windows apart, and counts within the limit |
| Supervisor.RunGuarantees | crates/syncthing-sync/src/supervisor.rs:154-204 | over every run any span of reset_after holds at most twice max_restarts restarts and one window at most max_restarts, delays never shrink, and the callback fires at most once, exactly on giving up |
| Supervisor.GivesUpIff | crates/syncthing-sync/src/supervisor.rs:189-201 | after any run the supervisor gives up if and only if the exit is restartable and the window of the max_restarts-th latest restart is still open, and then nothing more happens |
| Supervisor.LimitExceededIff | crates/syncthing-sync/src/supervisor.rs:62 | some run exceeds max_restarts within a span of reset_after if and only if tasks are restarted, max_restarts is positive and its first so many delays, or one moment, fit into the span |
| Supervisor.SpanHoldsIff | crates/syncthing-sync/src/supervisor.rs:154-204 | some run fits a given larger number of restarts into one span if and only if it is at most twice max_restarts and the delays between the first so many leave room |
| Supervisor.DefaultReachesTen | crates/syncthing-sync/src/supervisor.rs:66-78 | with the default configuration ten restarts can fall within one minute |
| Supervisor.ShortWindowExceeded | crates/syncthing-sync/src/supervisor.rs:66-78 | with reset_after at ten seconds six restarts can fall within ten seconds, and ten cannot |

## Left out

- Network, TLS, connection handling, block transfer, user interfaces, REST, logging and configuration: input and output around the modelled logic.
- The diff algorithm of the `similar` library: a diff is any list of operations that tiles both texts; a lone carriage return, at which that library also splits lines, does not occur.
- Merged content is a sequence of lines, not one string; a marker that follows a last line without newline is a separate element.
- MergeOutput.Sweep: requires that the input does not hang, because a method must terminate; `TerminatesIffNoHang` decides the other inputs.
- Merge.ThreeWayMerge: requires, past the shortcuts, that the sweep does not hang, because a method must terminate; `TerminatesIffNoHang` decides the other inputs.
- MergeSides.SideFaithfulIff: speaks of all replacement lines at once; `SideShownIff` decides single inputs, among them an insertion followed by the equal run it shifts.
- MergeDiffs.ConflictsIff: an operation that is empty in both texts, which a line diff does not produce, is excluded.
- Replication: errors of the database, the conflict events, and renaming or merging conflicting files on disk; only the database effect of a resolution is modelled.
- Replication.IndexHandler.HandleIndex: the floating-point ratio 0.5 is the integer test that twice the remote count is below the local count.
- Convergence.CausalClocksConverge: requires that one version has one modification time, which the scanner does not ensure for new files, all of which start at the same version; `CausalClocksConvergeIff` covers the other cases.
- Convergence.LateJoinerLargestIff: the same; `LateJoinerConvergesIff` covers the other cases.
- Convergence.IndexMessagesConverge: the same; `IndexMessagesStoreWinner` covers the other cases.
- File entries carry the fields the logic reads; symlink targets, base versions and block sizes are not part of this model.
- Counters and sequence numbers are unbounded; 32- and 64-bit overflow is not modelled, except for the base-32 buffers and saturating delays.
- Glob.GlobMatch: matches characters where the source matches bytes, which differs for a question mark against a character of several bytes.
- Exchange: what the puller stores after a download; agreement is about the processing of indexes alone.
- ScanTree.WalkVisitsIff: names without backslash only; `JudgedAlikeIff` shows that it fails for others. Symlinks, unreadable entries and cycles of directories are not modelled.
- ScanTree.IncrementalAgreesWithWalk: models the filters of the incremental path and not its comparison with the store.
- Scanner: sub-scans, subtree deletion and the quick scan; they share the modelled parts.
- Scanner.SecondScanSilentIff: the disk is given as found entries, existing names and running downloads, the same for both scans; SHA-256 hashes are opaque.
- DeviceIds.FromString: which characters beyond ASCII are letters or digits is a parameter, and decoding hexadecimal digits rejects texts with wide characters as the library does.
- DeviceIds.VerifyLuhn32Checksum: says nothing of texts with wide characters, which parsing rejects in any case.
- Databases.FileSystemDatabase.UpdateFile: the guard on the updated folder that the source holds while it evicts is not modelled; with it that folder is never the one evicted, and the call can block.
- Databases.RunsAgree: single-file operations one at a time; batch updates, locking between threads, listing a folder and failing disks are not modelled, and folders have distinct directories.
- DeltaIndex.DeltaTheorem: numbering and storing a scan's entries is one step, and rotated IDs are fresh; entries stored with a peer's number are covered by `RemoteEntryReachesIff`.
- Staggered: grouping archived files by name, the expiry pass before pruning, and the deletion itself.
- Supervisor: several tasks at once; the callback is counted and not run, and a shutdown is one of the signals.
- Members that would only add easy statements: `select_winner`, index difference and merge helpers, event buffer, task queue and health counters.
