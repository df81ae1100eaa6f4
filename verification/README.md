# Open Science: verified core protocols

This project models the parts of the `ainrf` server whose correctness depends on
the order of many small steps, and proves what those steps guarantee together.
Each module follows one component:

- `ImportCycles`: the depth-first search that lists import cycles between product modules.
- `RestorePromotion`: publishing the staged directories of a multi-root restore under a journal, with the in-process rollback and the recovery of a later run. Every rename, removal and journal revision is one step; the process may die between any two steps and every operation may fail before or after its effect. The class `Restore` is the code; its ghost history is proved to be a run of the step relation `Next`.
- `GenerationPointer`: selecting a restored generation through one symlink, with a journal that carries an intent to promote or to roll back, in the same style.
- `SnapshotCopy`: copying a SQLite file and its sidecars while another process writes them.
- `TreeDigest` and `ArchiveNames`: the byte stream behind a tree digest, and the archive naming scheme with the restore mapping that should undo it.
- `Utf8` and `ContextAssembly`: cutting text to a byte budget and assembling a task's context under nested budgets.
- `ContextTables` and `ContextLifecycle`: Project Context drafts, Versions, candidates, fragments, previews and stored replies as tables; the requests on them; and what every run of requests keeps.
- `ContextRequests`: for each request, exactly when it is refused and exactly what it changes when it is not.
- `SchemaMigration`: the migration runner, in a transaction of its own or in a savepoint of its caller's.
- `Backfill`: planning legacy task outputs as Turn Items and inserting them once.
- `Telemetry` and `TelemetryScrape`: the persisted telemetry snapshot with its strict decoder, and the scrape that falls back to the last good one.

`Wrappers` and `Ordering` hold the option and result types, the lexicographic orders and sorting.

The classes that model fallible code (`Restore`, `Selector`, `Connection`,
`TargetDatabase`) carry a flag `calm`, set when the object is made. While it is
set no fault strikes: no operation fails, no process dies, no engine refuses a
statement. Safety is proved with and without it; what a call must achieve when
nothing goes wrong is proved with it.

Hashes, JSON text and the behaviour of single migrations are parameters. Clocks,
other processes and failures are nondeterministic choices or parameters.

## Where the code does less than it seems to promise

- A multi-root restore is all-or-nothing in every reachable state if and only if one root is restored or no failure strikes unnoticed (`RestorePromotion.AtomicExactlyWhenNoticed`). Two failures do: an interrupt between a rename and the list append that records it, and a failed directory sync after the final journal removal (`src/ainrf/backup/service.py:2021-2039`).
- A rollback link left behind by a crash, which any replacement of one generation by another can leave (`GenerationPointer.CrashLeavesLink`), makes every later recovery refuse, for good (`GenerationPointer.RefusalExactlyWhenLinkLeft`, `GenerationPointer.LeftLinkIsPermanent`).
- Assembled content is not always a prefix of the text it was cut from. It is one if and only if the budget falls between two characters of that text or all chunks but the last fit (`ContextAssembly.ContentIsPrefixExactly`); otherwise the next chunk's heading characters fill the wasted bytes, as with any budget that ends inside a multi-byte character right after the first heading (`ContextAssembly.SplitCharacterBreaksPrefix`).
- A fragment with empty content can be created, and a Version published with it can never be read (`ContextLifecycle.FrozenDecodesExactly`, `ContextLifecycle.EmptyFragmentIsUnreadable`).
- A top-level JSON file with the name of a runtime config is restored into the runtime directory, and collides with the real one; a name that is only an extension is archived and then refused (`ArchiveNames.RestoresToItselfExactly`, `ArchiveNames.CollisionsExactly`).
- The staged SQLite copy is the whole directory at some instant if and only if it holds a sidecar or the two sidecars did not take turns during the window in which the copy stood still (`SnapshotCopy.WholeExactly`). Two sidecars that alternate, each absent whenever it is looked for, go unnoticed (`SnapshotCopy.AlternatingSidecarsGoUnseen`); a database that uses only one kind of sidecar is always copied whole (`SnapshotCopy.OneSidecarKindIsCopiedWhole`).
- Maintenance does not stop every migration. A call is refused exactly for versions below the baseline, or below the supported version where there is no baseline (`SchemaMigration.Connection.RunUncommitted`); a call that is let through applies something exactly for baseline databases behind the supported version (`SchemaMigration.MaintenanceLetsThrough`, with a database in `SchemaMigration.MigratedUnderMaintenance`).
- Decoding gives back exactly the well-formed telemetry collections; a negative value, a missing status or a reordered label does not survive (`Telemetry.RoundTrip`).

## Model

| member | source | states |
|---|---|---|
| ImportCycles.FindCycles | src/ainrf/dependency_direction.py:144-168 | on a graph whose targets are nodes: every listed tuple is a simple cycle in its least rotation, no two are rotations of each other, every closed walk shares an edge with a listed cycle, the list is sorted, and it is empty exactly when the graph is acyclic |
| ImportCycles.CyclicComponentIsReported | src/ainrf/dependency_direction.py:144-168 | a complete listing holds, for every closed walk, a cycle lying entirely in that walk's strongly connected component |
| ImportCycles.EveryCycleIsHit | src/ainrf/dependency_direction.py:150-163 | if every edge out of a finished module leads to an earlier finished one or was reported, every closed walk uses a reported edge |
| ImportCycles.CyclesSharingAnEdge | src/ainrf/dependency_direction.py:144-168 | a cycle sharing an edge with a closed walk lies within the walk's component |
| ImportCycles.ListedExactlyWhenCyclic | src/ainrf/dependency_direction.py:165-168 | a sound and complete listing is empty if and only if the graph is acyclic |
| ImportCycles.NoTwoAreRotations | src/ainrf/dependency_direction.py:157-168 | distinct least rotations are never rotations of each other |
| ImportCycles.LeastRotationsAgree | src/ainrf/dependency_direction.py:160-161 | two least rotations of one closed walk are the same tuple |
| ImportCycles.MinRotation | src/ainrf/dependency_direction.py:160-161 | the result is a rotation of the cycle and not above any other rotation |
| ImportCycles.SuffixIsCycle | src/ainrf/dependency_direction.py:157-159 | closing the active path back to one of its own modules gives a simple cycle using the closing edge |
| ImportCycles.CycleSearch.Report | src/ainrf/dependency_direction.py:157-161 | the edge closing the path is reported, all earlier cycles stay, and the search invariant is kept |
| ImportCycles.CycleSearch.Visit | src/ainrf/dependency_direction.py:150-163 | the module and everything visited under it is finished and explained, the active stack is as before, nothing recorded is lost; the recursion decreases the unvisited modules |
| ImportCycles.CycleSearch.SearchAll | src/ainrf/dependency_direction.py:165-167 | every module is finished and the invariant holds |
| ImportCycles.KnownModule | src/ainrf/dependency_direction.py:107-113 | the longest package path of the target that is a product module, or none when there is none |
| ImportCycles.Parent | src/ainrf/dependency_direction.py:112-112 | what stands before the last dot, strictly shorter unless the name is empty |
| Ordering.StringLeExactly | src/ainrf/dependency_direction.py:160-168 | the string order puts a first exactly when it is a prefix or has the smaller character where the two part |
| Ordering.TupleLeExactly | src/ainrf/dependency_direction.py:160-168 | the tuple order puts a first exactly when it is a prefix or has the smaller string where the two part |
| RestorePromotion.AtomicExactlyWhenNoticed | src/ainrf/backup/service.py:1999-2071 | every reachable state without a journal has all roots published or none, if and only if there is one root or no failure strikes unnoticed |
| RestorePromotion.EveryStateIsAtomic | src/ainrf/backup/service.py:1999-2071 | in every state of every run of restores, handlers, crashes and recoveries: no journal means all or none, a published root was announced in the journal first, and no half-deleted tree is public |
| RestorePromotion.CrashWhileRenamingIsRecoverable | src/ainrf/backup/service.py:551-574 | a crash during any rename loop leaves a volume recovery reads without ambiguity, as completed exactly when all roots are published |
| RestorePromotion.RefusalMeansNothingPublished | src/ainrf/backup/service.py:551-561 | recovery answers ambiguous only when nothing is public |
| RestorePromotion.RollbackIsFinal | src/ainrf/backup/service.py:563-574 | once a root was withdrawn, no later crash or recovery declares the same restore completed |
| RestorePromotion.ClassifyPrefix | src/ainrf/backup/service.py:551-566 | with the first k roots published, recovery completes exactly when k is all of them and otherwise rolls back exactly those k |
| RestorePromotion.RunKeepsInv | src/ainrf/backup/service.py:1999-2071 | the protocol invariant holds in every state of every run |
| RestorePromotion.InterruptStrandsARoot | src/ainrf/backup/service.py:2028-2056 | with several roots, an interrupt between a rename and its bookkeeping reaches a state with no journal and one root public |
| RestorePromotion.LateFailureRollsBackUnjournaled | src/ainrf/backup/service.py:2037-2062 | with several roots, a failure after the final journal removal reaches a partly withdrawn state with no journal |
| RestorePromotion.Restore.RestoreBackup | src/ainrf/backup/service.py:1999-2071 | undisturbed it succeeds; success publishes all roots, leaves no candidate and drops the journal; without unnoticed failures every state passed through is atomic and a volume left without a journal has all roots or none |
| RestorePromotion.Restore.PromoteRoots | src/ainrf/backup/service.py:1999-2039 | the promoted roots are always a prefix, in order, and the handler is entered with exactly that list |
| RestorePromotion.Restore.CreateJournal | src/ainrf/backup/service.py:1999-2018 | the journal exists before the first rename |
| RestorePromotion.Restore.AnnounceRoot | src/ainrf/backup/service.py:2021-2026 | a root is marked as being promoted before its rename |
| RestorePromotion.Restore.RenameRoot | src/ainrf/backup/service.py:2027-2033 | one candidate becomes its public target, or the handler is entered |
| RestorePromotion.Restore.RecordRoot | src/ainrf/backup/service.py:2034-2036 | the renamed root is recorded as promoted and the loop moves on |
| RestorePromotion.Restore.PromoteRoot | src/ainrf/backup/service.py:2021-2036 | one root is announced, renamed and recorded: undisturbed it ends published and on the list; on a failure the handler gets exactly the roots recorded so far |
| RestorePromotion.Restore.FinishJournal | src/ainrf/backup/service.py:2037-2039 | the journal is removed only with all roots published |
| RestorePromotion.Restore.Handle | src/ainrf/backup/service.py:2040-2071 | a handler that finishes has dropped the journal and, without unnoticed failures, left nothing public |
| RestorePromotion.Restore.Recover | src/ainrf/backup/service.py:517-574 | nothing without a journal; refused exactly when a journal stands and some root has both its directories or neither, and then nothing changes; otherwise, undisturbed, completed exactly when every root has only its target, and rolled back, with every candidate removed, when not; completed only with all roots public; a rollback leaves no journal and nothing public, disturbed or not |
| RestorePromotion.PairsAsFound | src/ainrf/backup/service.py:551-565 | the classification is ambiguous exactly when some root has both its directories or neither, and otherwise counts all roots as moved exactly when each has only its target |
| RestorePromotion.Restore.Scan | src/ainrf/backup/service.py:551-561 | the two lists agree with the classification of the volume |
| RestorePromotion.Restore.UndoMoved | src/ainrf/backup/service.py:567-574 | a rollback that finishes has withdrawn every moved root, so nothing is public, and dropped the journal; otherwise it was interrupted |
| GenerationPointer.PointerIsAlwaysValid | src/ainrf/backup/service.py:2164-2228 | in every state of every run the pointer leads to a verified generation, under a journal to the new or the previous one, and without a journal no temporary link is left |
| GenerationPointer.PointerNeverVanishes | src/ainrf/backup/service.py:838-962 | an installation that has a selection never loses it, in any run |
| GenerationPointer.OnlySwapMovesForward | src/ainrf/backup/service.py:2196-2208 | the pointer changes only in the promoting rename, from previous to new, or in the two rollback steps, from new to previous |
| GenerationPointer.RollbackIsFinal | src/ainrf/backup/service.py:869-962 | once the rollback intent is journaled, it stays until the previous generation is selected with no journal and no link left, and a pointer that is back stays back |
| GenerationPointer.RefusalExactlyWhenLinkLeft | src/ainrf/backup/service.py:838-866 | a journaled rollback cannot be taken up again if and only if a rollback link was left |
| GenerationPointer.CrashLeavesLink | src/ainrf/backup/service.py:855-866 | for any two generations there is a run in which the process dies with its rollback link made and the rollback journaled |
| GenerationPointer.LeftLinkIsPermanent | src/ainrf/backup/service.py:855-866 | after that nothing on disk changes any more, in any run |
| GenerationPointer.RunKeepsInv | src/ainrf/backup/service.py:838-962 | the invariant over pointer, links and journal holds in every state of every run |
| GenerationPointer.Selector.Select | src/ainrf/backup/service.py:2164-2228 | undisturbed the new generation is selected; selected means the new generation without a journal; withdrawn means the old selection stands |
| GenerationPointer.Selector.Prepare | src/ainrf/backup/service.py:2196-2201 | candidate link and announcements come before the rename; any failure leads to the handler |
| GenerationPointer.Selector.SwapAndConfirm | src/ainrf/backup/service.py:2202-2208 | success leaves the new generation selected and no journal |
| GenerationPointer.Selector.HandleFailure | src/ainrf/backup/service.py:869-895 | a completed rollback selects the previous generation and leaves no journal |
| GenerationPointer.Selector.LinkAndSwapBack | src/ainrf/backup/service.py:855-866 | the pointer is unchanged or back at the previous generation, and back when it succeeds |
| GenerationPointer.Selector.UndoPointer | src/ainrf/backup/service.py:883-891 | the pointer ends at the previous generation or the rollback stops; a left link makes it fail with nothing changed |
| GenerationPointer.Selector.Recover | src/ainrf/backup/service.py:898-962 | without a journal a no-op; undisturbed it finishes unless a rollback link was left, and with one it always fails with nothing changed; success leaves no journal and no link; a promote intent never moves the pointer, a rollback intent only back to the previous generation, where success leaves it |
| SnapshotCopy.StagedSnapshot | src/ainrf/backup/service.py:181-220 | a directory that stands still within the followed number of blocks is copied exactly; giving up means the deadline passed with every attempt disturbed, or an attempt met a member that vanished or outgrew the copy; with fresh stamps per write, a returned copy stood still for a whole window: at each of its instants every copied member had exactly the copied blocks, and it is whole in the window if and only if it holds a sidecar or the two sidecars did not take turns |
| SnapshotCopy.TakeOnce | src/ainrf/backup/service.py:190-199 | one attempt yields a copy only if list, prints and second prints agree; then all copied members stood unchanged between the passes; a directory that stood still is copied exactly; an unreadable attempt met real trouble, and a moved one a real change |
| SnapshotCopy.SamePrintsMeanStable | src/ainrf/backup/service.py:295-309 | equal prints before and after mean the member did not change in between |
| SnapshotCopy.Fingerprint | src/ainrf/backup/service.py:295-309 | each print was taken of its member at some instant of the pass; it fails only if some member was absent at some instant; a directory that stands still gives exactly its prints |
| SnapshotCopy.ListMembers | src/ainrf/backup/service.py:273-292 | a listed member was there at some instant of the listing, a member not listed was absent at some instant; a directory that stands still is listed exactly |
| SnapshotCopy.CopyFile | src/ainrf/backup/service.py:194-196 | a block-wise copy of a file that does not change meanwhile is exact; it fails only if the file was absent at some instant or longer than the followed number of blocks |
| SnapshotCopy.CopyAll | src/ainrf/backup/service.py:194-196 | copies taken one after the other are exact for every member that stayed unchanged since the first instant; a failure names a member that was absent or too long |
| SnapshotCopy.StillCopy | src/ainrf/backup/service.py:190-199 | what an attempt has seen of a directory that stands still is exactly its members' blocks |
| SnapshotCopy.PassesAgree | src/ainrf/backup/service.py:190-199 | around a directory that stands still both lists and both sets of prints agree, so the attempt is not called moved |
| SnapshotCopy.StillMeansNoTrouble | src/ainrf/backup/service.py:190-199 | a directory that stands still, with a main file and members within the followed length, gives no attempt a reason to fail |
| SnapshotCopy.WholeExactly | src/ainrf/backup/service.py:190-199 | what a successful pass has seen is the whole directory at some instant if and only if a sidecar was copied or the two sidecars did not take turns |
| SnapshotCopy.SidecarMakesItWhole | src/ainrf/backup/service.py:190-199 | a copy that holds a sidecar is always whole at some instant, with no condition on files that come and go |
| SnapshotCopy.OneSidecarKindIsCopiedWhole | src/ainrf/backup/service.py:273-292 | where one kind of sidecar is never used, every copy is whole at some instant |
| SnapshotCopy.AlternatingSidecarsGoUnseen | src/ainrf/backup/service.py:273-292 | a writer history with fresh stamps in which a pass sees the main file alone, though at no instant was it alone |
| TreeDigest.StreamDeterminesInventory | src/ainrf/backup/service.py:1205-1215 | two inventories with NUL-free paths and hex digests that feed the hash the same bytes are the same map |
| TreeDigest.StreamDeterminesListing | src/ainrf/backup/service.py:1205-1215 | the stream is uniquely decodable, record by record |
| TreeDigest.RecordIsReadable | src/ainrf/backup/service.py:1208-1214 | path, size and digest of the first record can be read off whatever follows |
| TreeDigest.RecordReadsBack | src/ainrf/backup/service.py:1208-1214 | a reader that knows only the separators gets path, size and digest back from one record, and the bytes behind it |
| TreeDigest.StreamReadsBack | src/ainrf/backup/service.py:1205-1215 | the same reader gets the whole listing back from the stream |
| TreeDigest.AsciiOnlyForItself | src/ainrf/backup/service.py:1208-1214 | a byte below 0x80 occurs in an encoding only for its own character |
| TreeDigest.DecimalValue | src/ainrf/backup/service.py:1211-1211 | the decimal text of a size consists of digits and determines it |
| TreeDigest.TreeStream | src/ainrf/backup/service.py:1205-1215 | the bytes fed to the hash are those of the inventory listed once each, in path order |
| ArchiveNames.RestoresToItselfExactly | src/ainrf/backup/service.py:1223-1310 | an archived source is restored to its own path if and only if it is neither a top-level file with a runtime config's name nor a bare extension |
| ArchiveNames.MisplacedMoves | src/ainrf/backup/service.py:1305-1310 | such a top-level file comes back in the runtime directory |
| ArchiveNames.CollisionsExactly | src/ainrf/backup/service.py:1236-1274 | two different sources share a member name only as a runtime config and its top-level namesake |
| ArchiveNames.SameNameSameSource | src/ainrf/backup/service.py:1400-1422 | without such files, equal member names mean equal sources |
| ArchiveNames.ArchivedExactly | src/ainrf/backup/service.py:1223-1291 | which paths are archived, in terms of the path alone |
| ArchiveNames.DatabasesExactly | src/ainrf/backup/service.py:1223-1233 | exactly the SQLite files of the runtime directory are archived under databases, each under its own path there |
| ArchiveNames.NamedAgainExactly | src/ainrf/backup/service.py:1357-1422 | a restored member is archived under its old name again if and only if it is neither under the bare runtime section nor a nested runtime config |
| ArchiveNames.CollectNames | src/ainrf/backup/service.py:1236-1274 | the dictionary holds every source under its name and is refused exactly when two different sources claim one name |
| Utf8.PrefixIsLongestFitting | src/ainrf/domain/context.py:168-174 | slicing the encoded bytes and dropping the incomplete tail gives the longest prefix of whole characters that fits, wasting less than the next character and at most three bytes |
| Utf8.CutDecodesToFitting | src/ainrf/domain/context.py:168-174 | decoding a cut encoding equals the prefix defined character by character |
| Utf8.RoundTrip | src/ainrf/domain/context.py:168-174 | decoding an encoding gives the text back |
| Utf8.EncodeIsInjective | src/ainrf/domain/context.py:168-174 | different texts have different encodings |
| ContextAssembly.Assemble | src/ainrf/domain/context.py:257-374 | succeeds exactly for the required source order with acceptable fragments; the content fits the budget, the manifest accounts for every chunk and adds up to the content, and the flag holds exactly when the content differs from the unbudgeted rendering |
| ContextAssembly.TruncatedExactlyWhenDifferent | src/ainrf/domain/context.py:270-374 | something was cut, locally or globally, if and only if the content differs from the unbudgeted rendering |
| ContextAssembly.AssembledCut | src/ainrf/domain/context.py:270-374 | after a global cut at most three bytes stay unused, and none unless the last chunk was cut |
| ContextAssembly.ContentIsPrefixExactly | src/ainrf/domain/context.py:270-374 | for all sources and budgets, the content is a prefix of the text it was cut from if and only if the budget falls between two characters of that text or all chunks but the last fit |
| ContextAssembly.SplitCharacterBreaksPrefix | src/ainrf/domain/context.py:270-374 | with any sources whose first content starts with a multi-byte character there is a budget under which the content is not a prefix |
| ContextAssembly.AccentBreaksPrefix | src/ainrf/domain/context.py:257-281 | sources in the required order, with an accented letter, and a budget under which the content is not a prefix |
| ContextAssembly.CutExactlyWhenTooLong | src/ainrf/domain/context.py:270-374 | some chunk is cut if and only if the chunks together exceed the budget |
| ContextAssembly.ManifestAccountsForContent | src/ainrf/domain/context.py:270-374 | the included bytes of all sources add up to the content's bytes |
| ContextAssembly.FillFits | src/ainrf/domain/context.py:270-374 | filling chunk by chunk never exceeds the budget |
| ContextAssembly.TruncatedBySource | src/ainrf/domain/context.py:340-354 | some manifest entry is truncated exactly when the whole is |
| ContextAssembly.AddSource | src/ainrf/domain/context.py:272-354 | one source and its fragments extend content, remaining budget and manifest as the specification says |
| ContextAssembly.AddFragments | src/ainrf/domain/context.py:284-338 | the fragment loop accepts exactly acceptable fragments and accounts for each |
| ContextAssembly.AddFragment | src/ainrf/domain/context.py:295-338 | one fragment after its own cut, under what the shared budget leaves |
| ContextLifecycle.ExactlyOncePerKey | src/ainrf/domain/context.py:2119-2191 | in any run, after a success under an actor, scope and key, later requests under it change nothing, answer with the first response, and fail when their request hash differs |
| ContextLifecycle.RunKeeps | src/ainrf/domain/context.py:458-1120 | in any run, with Tasks, Workspaces and submissions changing, Tasks being pinned and Projects created between requests: Versions, snapshots and stored replies never change, decided candidates stay decided, previews only gain their confirmation |
| ContextLifecycle.OneActiveVersion | src/ainrf/domain/context.py:621-685 | at most one Version of a project is active in every state of every run |
| ContextLifecycle.PublishActivates | src/ainrf/domain/context.py:621-685 | a publish that does the work makes the draft and the frozen fragments a new Version, fingerprinted over both and signed by the caller; it becomes the project's one active Version, other projects keep theirs, and no other table changes |
| ContextLifecycle.AssemblyIsStable | src/ainrf/domain/context.py:1515-1568 | assembling a Version gives the same snapshot whatever is drafted, added or published later |
| ContextLifecycle.AcceptedOnce | src/ainrf/domain/context.py:854-1020 | after an acceptance, accepting again never changes the draft, and a rejection that is not answered from a stored reply fails |
| ContextLifecycle.AppendMerges | src/ainrf/domain/context.py:1919-1925 | the merged text is the draft and the candidate with the white space at the seam replaced by one empty line, or the other as it is where one is empty |
| ContextLifecycle.PreviewProposes | src/ainrf/domain/context.py:1259-1320 | a preview holds what the active Version assembles to for the task, is new, unconfirmed, the caller's, and expires as configured; tasks, snapshots and submissions stay |
| ContextLifecycle.ConfirmedOnce | src/ainrf/domain/context.py:1322-1414 | a confirmation pins exactly the previewed snapshot for good, and a preview is confirmed at most once |
| ContextLifecycle.FrozenDecodesExactly | src/ainrf/domain/context.py:1571-1736 | decoding a frozen manifest gives back the project's fragments in order if and only if no field is empty and every stored fingerprint is absent, empty or the content's own |
| ContextLifecycle.FrozenDecodesExactlyWhenNonEmpty | src/ainrf/domain/context.py:1571-1736 | for fragments created through the service, decoding succeeds if and only if none of them is empty |
| ContextLifecycle.EmptyFragmentIsUnreadable | src/ainrf/domain/context.py:1672-1687 | one empty fragment makes a verified Version undecodable |
| ContextLifecycle.CreatedFragmentIsWritten | src/ainrf/domain/context.py:1022-1120 | a created fragment has the shape the decoder expects, but for possibly empty content |
| ContextLifecycle.RowsAreTheProjectsSorted | src/ainrf/domain/context.py:1571-1619 | the frozen rows are exactly the project's, in reading order |
| ContextLifecycle.RowLeExactly | src/ainrf/domain/context.py:1581-1585 | reading order is sort order, then creation time, then id |
| ContextLifecycle.FrozenEntriesKeepRows | src/ainrf/domain/context.py:1571-1619 | each frozen entry keeps its row's fields, with a missing fingerprint computed from the content and a missing source version taken from it |
| ContextLifecycle.PinUsesVerified | src/ainrf/domain/context.py:1475-1513 | a Task is pinned to a verified Version that is then the active one: the active one before if it was verified, else one published from the draft; the pinned snapshot is what that Version assembles to |
| ContextLifecycle.BackgroundKeeps | src/ainrf/domain/context.py:1134-1257 | pinning Tasks, creating Projects and any change to Tasks, Workspaces and submissions keep the invariant and alter nothing immutable |
| ContextLifecycle.InitializeKeeps | src/ainrf/domain/project_initialization.py:11-68 | creating a Project with its first active Version keeps one active Version per project |
| ContextLifecycle.ServedKeeps | src/ainrf/domain/context.py:458-1414 | every request keeps the invariant and alters nothing immutable |
| ContextLifecycle.ContextService.Serve | src/ainrf/domain/context.py:535-619 | a failed request changes nothing; a known key only answers again; otherwise exactly the request's effect is committed together with its stored reply |
| ContextLifecycle.ContextService.PinActiveContext | src/ainrf/domain/context.py:1134-1164 | succeeds exactly when nothing forbids the write, the Task belongs to the project and its Version can be pinned; then the Task names a verified active Version and a new snapshot assembled from it, other Tasks stay, and the tables make one background step; a failure changes nothing |
| ContextTables.AssembleForTask | src/ainrf/domain/context.py:1515-1568 | decoding the Version and calling the assembler gives the specified snapshot; unless it says truncated, its content is exactly the four sections under their headings, in order, with the fragments after the brief in manifest order; it says truncated if and only if a fragment exceeds its own budget or that text the whole budget |
| ContextTables.AssembledText | src/ainrf/domain/context.py:1515-1568 | the same of the specified snapshot, which names its Version and never exceeds the budget |
| ContextTables.WholeIsTaskText | src/ainrf/domain/context.py:1515-1568 | the unbudgeted rendering of the sources handed to the assembler is that text |
| ContextTables.ActiveVersion | src/ainrf/domain/context.py:1761-1778 | finds an active Version of the project, or there is none |
| ContextRequests.DraftIsSaved | src/ainrf/domain/context.py:458-507 | a save stores exactly the given text with caller and time, and touches nothing else |
| ContextRequests.CandidateIsCreated | src/ainrf/domain/context.py:719-840 | a creation adds one proposed candidate with the given text under a new id, and touches nothing else |
| ContextRequests.AcceptanceMerges | src/ainrf/domain/context.py:854-945 | accepting a proposed candidate puts its text behind the draft's, marks draft and candidate with the caller, and touches nothing else |
| ContextRequests.RejectionSettles | src/ainrf/domain/context.py:947-1020 | a rejection leaves the candidate rejected: a proposed one with caller and reason, a rejected one as it was; drafts and everything else stay |
| ContextRequests.RejectedOnce | src/ainrf/domain/context.py:854-1020 | in any run, after a rejection the candidate stays exactly as rejected, and every acceptance of it that is not a stored reply fails |
| ContextRequests.DecisionsRefusedExactly | src/ainrf/domain/context.py:854-1020 | a permitted decision is refused if and only if the project has no such candidate or it was decided the other way |
| ContextRequests.ConfirmationRefusedExactly | src/ainrf/domain/context.py:1322-1414 | a permitted confirmation is refused if and only if the task is not the project's, or the preview is not the caller's own for it, has expired, or was used |
| ContextRequests.ConfirmationMoves | src/ainrf/domain/context.py:1322-1414 | a confirmation stores the proposed snapshot, pins task and version to it, moves exactly the task's queued submissions that follow its pin, marks the preview, and touches nothing else |
| ContextRequests.WritesRefusedExactly | src/ainrf/domain/context.py:458-1120 | a permitted save always succeeds, a publication fails exactly without a draft, a creation exactly for a foreign source task, an empty source type or a negative budget |
| ContextRequests.PreviewRefusedExactly | src/ainrf/domain/context.py:1259-1320 | a permitted preview is refused if and only if the task is not the project's, no Version is active, or the active one does not assemble |
| ContextRequests.PinRefusedExactly | src/ainrf/domain/context.py:1475-1513 | pinning fails exactly when the active verified Version does not assemble, or, where it is unverified, there is no draft or its successor does not assemble |
| ContextRequests.PinNeedsActive | src/ainrf/domain/context.py:1475-1513 | without an active Version nothing is pinned |
| ContextRequests.FragmentIsCreated | src/ainrf/domain/context.py:1022-1120 | a new fragment is added behind the others with every field as requested, fingerprinted over its content, and nothing else changes |
| ContextRequests.NewProjectIsRunnable | src/ainrf/domain/project_initialization.py:11-68 | a new Project has an empty draft and an active empty Version to which a Task can be pinned at once |
| ContextRequests.GatesHold | src/ainrf/domain/context.py:458-1414 | no request succeeds during maintenance, without a caller or with an empty key, no confirmation without a key, and nothing new is done without authority or past a closed fence |
| ContextRequests.ScopesAreDistinct | src/ainrf/domain/context.py:2119-2191 | requests of different kinds never share a stored reply |
| ContextRequests.ReplaysExactly | src/ainrf/domain/context.py:2119-2191 | a stored reply is given again to saves, publications and confirmations whatever the caller may still do, and to other requests if and only if they still may |
| SchemaMigration.Connection.RunPending | src/ainrf/db/migration.py:336-389 | undisturbed it succeeds if and only if the database is known, not guarded by maintenance, not of a pre-baseline schema, every migration runs and the result passes the integrity check where one is due, and not nested under enforced foreign keys that must be off; success applies exactly the missing migrations; a failed top-level call restores the database, a failed nested one is undone when nothing else fails; settings and transaction state are as before |
| SchemaMigration.AppliedOnceInOrder | src/ainrf/db/migration.py:244-389 | over any history of runs for any names and registries, failed runs and any statements of the application in between, for every name the newly applied versions ascend and lie above the old version, up to the current one |
| SchemaMigration.MigratedIsInOrder | src/ainrf/db/migration.py:244-316 | a successful run records ascending new versions under its own name and touches no other name |
| SchemaMigration.SecondCallAppliesNothing | src/ainrf/db/migration.py:244-316 | after a success the next call applies zero migrations and changes nothing |
| SchemaMigration.NothingAppliedExactly | src/ainrf/db/migration.py:244-316 | a successful run applies nothing if and only if the version found is the supported one and no baseline was due |
| SchemaMigration.MaintenanceLetsThrough | src/ainrf/db/migration.py:254-302 | a successful run that the maintenance guard lets through applies something if and only if the database has a baseline and is behind the supported version |
| SchemaMigration.MigratedUnderMaintenance | src/ainrf/db/migration.py:257-263 | a database at its baseline with one pending migration, which the guard lets through and the run migrates |
| SchemaMigration.MigratedExtends | src/ainrf/db/migration.py:244-316 | a successful call appends an ascending list of versions, all above the old version and up to the new one |
| SchemaMigration.MigratedContent | src/ainrf/db/migration.py:244-316 | all successful runs from one database leave the same tables |
| SchemaMigration.IntactExactly | src/ainrf/db/migration.py:365-366 | the tables pass the integrity check, where one is due, for one successful run if and only if for all |
| SchemaMigration.Connection.RunUncommitted | src/ainrf/db/migration.py:244-316 | success leaves the version at the supported one with exactly the missing migrations applied; refused as unknown exactly without baseline and migrations; refused for maintenance exactly below the baseline, or below the supported version without one; under maintenance a success applies something exactly for baseline databases behind; also a failure leaves versions applied in order; undisturbed it succeeds exactly for known, unguarded databases without a pre-baseline schema on which every missing migration runs |
| SchemaMigration.Connection.RunOwn | src/ainrf/db/migration.py:373-389 | with its own transaction: committed exactly on success, restored otherwise, setting restored always; undisturbed it succeeds exactly when the migrations run and the integrity check, where due, passes |
| SchemaMigration.Connection.RunNested | src/ainrf/db/migration.py:355-371 | in the caller's transaction: the savepoint is released on success and the work undone on failure; undisturbed it succeeds exactly when the migrations run and the integrity check, where due, passes, and a failure is undone |
| SchemaMigration.Connection.RollbackSavepoint | src/ainrf/db/migration.py:319-333 | the work is undone unless ROLLBACK TO itself is refused; a refused RELEASE leaves only the savepoint |
| SchemaMigration.Connection.Baseline | src/ainrf/db/migration.py:255-280 | the baseline is applied to a database without version; it is refused exactly for an older version or for user tables without version |
| SchemaMigration.Connection.Forward | src/ainrf/db/migration.py:287-292 | the pending migrations take effect in order, each followed by its version row, leaving other databases' rows alone |
| SchemaMigration.SupportedVersion | src/ainrf/db/migration.py:99-103 | the largest of the baseline and all migration versions |
| SchemaMigration.Pending | src/ainrf/db/migration.py:79-81 | the registered versions above the current one, ascending |
| SchemaMigration.PendingNeedsOff | src/ainrf/db/migration.py:83-94 | some pending migration asks for enforcement off on the present tables |
| Backfill.PlanTask | src/ainrf/db/backfill_legacy_turn_items.py:179-212 | succeeds exactly when all kinds are known and no prefix has more results than calls; the plan and the skipped rows together are all rows; the plan is a transcript: in row order, every row is told or is one to skip, a user's message as the user's and others as the agent's with their text, calls and results with exactly their named fields, each result naming the oldest open call, thinking as a summary, errors, stderr lines and notices as the system's; only tokens and status events are skipped |
| Backfill.PlanAll | src/ainrf/db/backfill_legacy_turn_items.py:215-249 | plans every task or fails, loses no row, and with unique seqs every plan is well linked |
| Backfill.TargetDatabase.Preflight | src/ainrf/db/backfill_legacy_turn_items.py:300-336 | ready if and only if there are Turns, exactly for the planned tasks, each the inferred first Turn, no such task has items, and no plan is empty |
| Backfill.PlanIsWellLinked | src/ainrf/db/backfill_legacy_turn_items.py:179-212 | over unique source seqs every planned result names an earlier planned call and nothing else names one |
| Backfill.CallsArePlanned | src/ainrf/db/backfill_legacy_turn_items.py:195-211 | every call seen so far is in the plan so far |
| Backfill.MappedKinds | src/ainrf/db/backfill_legacy_turn_items.py:108-176 | only a call becomes a tool_call item and only a result a tool_result item |
| Backfill.MappedAsShown | src/ainrf/db/backfill_legacy_turn_items.py:108-176 | the mapping of one row, stated over what its envelope holds: known kinds, skipped rows, and the item each other row becomes |
| Backfill.TypesTell | src/ainrf/db/backfill_legacy_turn_items.py:108-176 | the item type tells the row's kind and, for messages, who spoke; only a user's message has the user as actor |
| Backfill.TargetDatabase.Apply | src/ainrf/db/backfill_legacy_turn_items.py:339-416 | nothing unless ready; then every planned task is filled with items 1..n whose call references resolve to earlier items of the task, and verification succeeds if references resolved before; or nothing is changed; undisturbed it applies if and only if ready; every new item stands on its task's inferred Turn |
| Backfill.TargetDatabase.InsertAll | src/ainrf/db/backfill_legacy_turn_items.py:363-411 | the outer loop fills task after task and touches no others |
| Backfill.TargetDatabase.InsertTask | src/ainrf/db/backfill_legacy_turn_items.py:365-411 | one task's rows are numbered from 1 and each call reference is resolved through the id dictionary |
| Backfill.TargetDatabase.Verify | src/ainrf/db/backfill_legacy_turn_items.py:419-441 | ready exactly when every planned task has its planned number of items on its legacy Turn and every call reference leads to an item |
| Backfill.SecondApplyIsRefused | src/ainrf/db/backfill_legacy_turn_items.py:300-345 | after an apply the same backfill is not ready, so a second apply changes nothing |
| Telemetry.RoundTrip | src/ainrf/domain_telemetry.py:954-994 | decoding an encoded collection gives it back if and only if it is well formed |
| Telemetry.EncodedSpellsNothingElse | src/ainrf/domain_telemetry.py:954-994 | a payload written for canonical counters stands for no other collection, whatever its numbers |
| Telemetry.EncodedSpellsExactlyWellFormed | src/ainrf/domain_telemetry.py:954-994 | a written payload stands for its collection if and only if the collection is well formed |
| Telemetry.NumbersAreNumbers | src/ainrf/domain_telemetry.py:997-1009 | a payload that stands for a collection has version 3, its counts as integers and its ages as numbers, none negative |
| Telemetry.KeyLeExactly | src/ainrf/domain_telemetry.py:954-994 | counters are ordered by name, then by the first label in which they differ, its name before its value |
| Telemetry.SpellsOnlyOne | src/ainrf/domain_telemetry.py:1044-1141 | a payload stands for at most one collection |
| Telemetry.Encode | src/ainrf/domain_telemetry.py:954-994 | the payload with version 3, the snapshot and all records in sorted order |
| Telemetry.Decode | src/ainrf/domain_telemetry.py:1044-1141 | returns the collection the payload stands for, and refuses exactly the payloads that stand for none |
| Telemetry.BoundedCountRecords | src/ainrf/domain_telemetry.py:1012-1041 | accepts exactly the lists with one valid record per allowed status, none twice, none missing |
| Telemetry.DecodeCounters | src/ainrf/domain_telemetry.py:1086-1112 | accepts exactly the lists of canonical, distinct, non-negative counter records |
| Telemetry.CanonicalLabels | src/ainrf/domain_telemetry.py:549-562 | the label loop agrees with the canonical key of the label set |
| Telemetry.ListedKeysAreCanonical | src/ainrf/domain_telemetry.py:549-562 | a key survives being written as an object and read back if and only if it lists exactly its metric's labels in table order with allowed values |
| Telemetry.DecodeSnapshot | src/ainrf/domain_telemetry.py:1053-1085 | the seven gauges, or nothing when one is missing, negative, boolean or not finite |
| TelemetryScrape.Scraper.Refresh | src/ainrf/domain_telemetry.py:1205-1385 | success is reported exactly when everything was read and, if writable, stored; a failed scrape knows the risk exactly when it is writable, the sources are not merely unready, and a last good collection and its counters can be had; over the whole history, across restarts, it then shows the gauges and time of the latest successful writable scrape; read-only scrapes change nothing |
| TelemetryScrape.Scraper.Collect | src/ainrf/domain_telemetry.py:1230-1322 | a collection is stored exactly when a writable scrape succeeds |
| TelemetryScrape.Scraper.LastKnown | src/ainrf/domain_telemetry.py:1336-1354 | the collection of the latest successful writable scrape, from memory or the store, with counters read afresh, or nothing |
| TelemetryScrape.UnknownClaimsNothing | src/ainrf/domain_telemetry.py:1388-1406 | the publication made when nothing is known claims no success, no risk knowledge and no time, and all its counts are zero |
| TelemetryScrape.Scraper.LoadPersisted | src/ainrf/domain_telemetry.py:1178-1202 | the stored row gives back the latest successful writable collection exactly when it is well formed |
| TelemetryScrape.Scraper.Restart | src/ainrf/domain_telemetry.py:263-264 | a new process forgets memory and keeps the store |
| TelemetryScrape.LoadDurableCounters | src/ainrf/domain_telemetry.py:620-651 | every row is usable and each key has the value of its last row, or some row is unusable |

## Left out

- Tar and gzip packing, SHA-256 itself, manifests, git status reports and POSIX ownership of the backup: library behaviour or plain I/O.
- JSON text: payloads are values of a datatype; object keys of the telemetry payload are an enumeration, and the keys of a labels object count as label names, so duplicate keys in the text are not modelled.
- Floating-point rounding and overflow in telemetry values: gauges are reals; an integer too large for a float is accepted by the model.
- The validity checks of the restore and promotion journals (operation ids, paths, digests) before recovery starts; the model starts where they have passed.
- Directory identity in the restore: a target or candidate changed by another process while a restore or recovery runs.
- A failed rollback inside the restore handler ends the process there, as the source raises; the later recovery continues from the journal.
- SnapshotCopy.Fingerprint: a print is one stamp per member; its digest part and file identity are not distinguished.
- SnapshotCopy.CopyFile: follows a copy for a given number of blocks, any number, because copying a file that grows for ever does not end.
- The SQLite online-backup branch and its deadline arithmetic (`src/ainrf/backup/service.py:102-180`).
- The collection of import edges from syntax trees and the rules for relative imports: language rules outside the graph theorem.
- Python's recursion limit in the cycle search.
- Lone surrogates in Python strings: `char` is a Unicode scalar value, for which UTF-8 is defined in section 3 of RFC 3629.
- ContextLifecycle.AcceptedOnce: a rejection answered from a stored reply is left to ExactlyOncePerKey.
- ContextRequests.RejectedOnce: an acceptance answered from a stored reply is left to ExactlyOncePerKey.
- Maintenance, authorization and the write fence of Project Context requests: checks that pass or fail as a parameter says.
- Audit rows, candidate source ranges, fragment metadata, unified diffs and the read-only queries of Project Context: no effect on the tables modelled.
- Task creation itself, and the move of a Task to another Project: the model has what they do to Context tables.
- Initializing a Project whose id already has Versions: Project ids are new when a Project is created.
- Two requests with one hash: a stored reply is compared by request hash, so a hash collision would replay.
- ContextLifecycle.ContextService.Serve: one method for all write requests; their common order of checks is kept, the texts of errors are not.
- SchemaMigration.Connection.RunNested: when the engine refuses ROLLBACK TO, only the order of applied versions is stated about the working tables.
- SchemaMigration.Connection.RunOwn: a plain rollback of the own transaction is taken to succeed.
- The decorators that fill the migration registry, and the text of schema errors.
- Backfill.TargetDatabase.Verify: of the foreign key check over the items only the call references are modelled, not those to Turns and Tasks.
- Envelope, provenance and ingestion-time columns of the inserted items.
- Blocker texts and counts of the backfill report other than whether it is ready.
- Other processes writing the telemetry store between scrapes, the source-state gauges and the metric registry.
- TelemetryScrape.Scraper.Collect: a store transaction that raises is taken not to have committed.
