# Smart-MultiAgent-Platform: verified models

Dafny models of the parts of the platform whose correctness depends on state over time, on
recursion, or on one form refining another, with proofs about every run and every input.
`dafny verify dfyconfig.toml` checks the whole project.

| files | what they model |
|---|---|
| `SessionStore`, `SessionStoreImpl`, `SessionRuns`, `SessionInterleaved` | the refresh-token session store: three keyspaces that expire on their own, as values, as code, over runs of atomic operations, and over runs in which a rotation is split in two |
| `AgentFsGc`, `AgentFsGcSweep`, `AgentFsGcSafety`, `Uuids`, `VolumeNames` | the artifact collector: its sweeps and counters, one whole pass with its guards, its safety over whole runs of the database, and the names it parses |
| `JsonValues`, `JsonMerge`, `JsonText`, `JsonBounds` | the configuration merge against RFC 7396, the serialised form, the iterative measure, and growth |
| `OwnerModel`, `OwnerIndexDowngrade`, `SessionAdoption`, `OwnerRoundTrip`, `PagedRepair` | five data migrations |
| `Labels` | label normalisation and the copies of it two migrations froze |
| `ScanFraming`, `Requirements`, `CsvFile` | the clamd stream, the requirement parser, its rendered index |
| `AuditRedaction`, `AuditSession` | redaction, and the audit writer of one database session |

## What is assumed

- Session store: one clock for the application and Redis, counted in microseconds; a key is visible
  while the clock is below its deadline; each pipeline is one step; hashes are injective, new tokens
  and new family ids never repeat, and a family begins with `create_session`, as its one caller does.
- Collector: rows disappear only by the retention rule its module comment states; ids are never used
  twice; Docker, MinIO and the database answer or fail arbitrarily. Rooms belong to the project of
  their workspace.
- Unicode tables, grapheme segmentation, and every regular expression are arbitrary functions, held
  only to the facts named in `Standard`, `Segments`, `Proper` and the `requires` clauses.
- Audit: a statement that fails outside a savepoint of its own leaves the PostgreSQL transaction
  aborted, as the docstring of `emit` says. Until it is rolled back, whole or to a savepoint, every
  other statement in it fails, and committing it keeps nothing. A commit that itself fails is a
  rollback.
- SQL statements are functions or relations on finite maps. Where a statement may choose a row
  freely, the results hold for every choice.

## Where a promise fails, and exactly when it holds

- A replayed refresh token kills its family up to one second before the family's expiry. In the last
  second it can miss, because each index entry lives a whole number of seconds from its own issue:
  `ReplayKillsExactlyWhileTraceable`, `ReplayInTheLastSecondCanMissTheFamily`. The module comment
  says the index lasts for the family's whole lifetime; revoking or killing also removes entries.
- With a rotation split into read and commit, a killed family can come back exactly while a rotation
  of it is under way: `EmptyFamilyRevivableIffPending`. A chain forks exactly when a rotation commits
  while a session of its family other than the one it spends is live: `RunForksExactly`,
  `TwoReadersForkTheChain`. A consumed token can be traced to its family exactly when its index entry
  was still there as its rotation committed; a kill in between removes it:
  `ConsumedTokenTraceableExactly`, `KillDuringRotationLosesTheTrace`.
- The collector's report counts artifacts, except when it refuses to sweep: then it counts distinct
  agents: `RefusalCountsAgentsNotArtifacts`, `RefusalUndercounts`. A row read as deleted is undeleted
  by the time its volume goes exactly when a restore, or a first creation, in between was not
  followed by another delete or purge: `UndeletedAfterReadExactly`, `RestoreBetweenReadAndRemoval`.
- The guard against an empty table probes it in a query of its own. A pass refuses exactly when no
  id matched in its own batch and the later probe finds no row: `RefusesExactly`. A table that is
  empty at the lookup and not at the probe, as one being restored can be, costs every agent volume
  that is older than the cutoff and can be removed: `FilledBeforeTheProbe`,
  `RestoreBetweenLookupAndProbe`.
- The merge is RFC 7396, and is idempotent, exactly when no object of the patch that misses a stored
  object carries a null: `MergeIsMergePatchExactly`, `MergeIsIdempotentExactly`,
  `NestedNullIsStored`.
- The label cap holds exactly when it is at least one or there is nothing to cut:
  `TruncationFitsExactly`. A visible name keeps a label exactly when something visible comes before
  the cut: `VisibleNamesKeepALabelExactly`, `CuttingCanHideAName`.
- A flush publishes only events whose rows exist exactly when every row written since the last flush
  was kept by the commit of a transaction not aborted by then. A rollback on a session that is used
  again leaves events behind, and so does rolling back to a savepoint older than the row, or
  committing after a statement failed: `FlushIsBackedExactly`, `RollbackLeavesAPhantomEvent`,
  `SavepointRollbackLeavesAPhantomEvent`, `AbortedCommitLeavesAPhantomEvent`.
- The owner downgrade can always be completed exactly for configs whose groups have members and
  share none: `DowngradeWorksExactly`, `MemberlessGroupBlocksTheDowngrade`.

## Model

| member | source | states |
|---|---|---|
| SessionStore.Deadline | backend/shared_kernel/auth/tokens.py:206-215 | a key written with a family's remaining whole seconds outlives the moment one second before the expiry, and lives at least a second |
| SessionStoreImpl.RefreshStore.CreateSession | backend/shared_kernel/auth/tokens.py:69-93 | the pipeline amounts to the create operation on values; reads then see the new record, its index entry and its membership, and nothing else changed |
| SessionStoreImpl.RefreshStore.RotateSession | backend/shared_kernel/auth/tokens.py:96-140 | the three outcomes by what the spent hash reads as: missing kills its traceable family, expired drops the session alone, and otherwise the returned record is the old one with the new access token and the time of the call; the spent hash is then no longer live but still indexed, its successor carries the chain on, and nothing else changed |
| SessionStoreImpl.RefreshStore.RevokeSession | backend/shared_kernel/auth/tokens.py:143-156 | returns the record the hash had; a revoked hash is neither live nor indexed nor listed, an unknown one changes nothing, and no other read changes |
| SessionStoreImpl.RefreshStore.KillFamily | backend/shared_kernel/auth/tokens.py:159-172 | deleting the members one by one amounts to the kill and returns their number; exactly the listed hashes lose session and index entry, and the set is gone |
| SessionStoreImpl.RefreshStore.KillFamilyByHash | backend/shared_kernel/auth/tokens.py:219-229 | kills the family the index names, and does nothing for a hash it does not know |
| SessionRuns.StepKeeps | backend/shared_kernel/auth/tokens.py:69-172 | every operation keeps the three keyspaces of every family in agreement |
| SessionRuns.TraceInv | backend/shared_kernel/auth/tokens.py:69-172 | the agreement holds in every state of every run |
| SessionRuns.OneLiveSessionPerFamily | backend/shared_kernel/auth/tokens.py:127-139 | no reachable state has two live sessions of one family |
| SessionRuns.ChainKeepsIdentityAndLifetime | backend/shared_kernel/auth/tokens.py:117-125 | user, session, issue time and expiry are the same anywhere along a rotation chain |
| SessionRuns.RotationSucceedsExactly | backend/shared_kernel/auth/tokens.py:103-140 | a rotation succeeds if and only if the hash is live and its family's expiry has not passed; then it is consumed and its successor is live in the same family |
| SessionRuns.CreatedRecordSays | backend/shared_kernel/auth/tokens.py:69-93 | in every run, while a created session is live its record has the user, session, access token and times it was created with |
| SessionRuns.RotatedRecordSays | backend/shared_kernel/auth/tokens.py:117-125 | in every run, while a rotated session is live its record is that of the token it replaced, with the access token and the time of the rotation |
| SessionRuns.DeadFamilyStaysDead | backend/shared_kernel/auth/tokens.py:96-172 | a family without a live session never has one again |
| SessionRuns.KilledFamilyStaysEmpty | backend/shared_kernel/auth/tokens.py:159-172 | a killed family stays empty in every continuation |
| SessionRuns.ReplayKillsExactlyWhileTraceable | backend/shared_kernel/auth/tokens.py:103-108 | a consumed hash is refused, and its family ends if and only if the index still traces it or nothing was live; up to one second before the expiry it always ends |
| SessionRuns.ReplayEndsTheFamily | backend/shared_kernel/auth/tokens.py:219-229 | after a replay made while the index entry lives, the family has no live session in any later state |
| SessionRuns.UnknownHashChangesNothing | backend/shared_kernel/auth/tokens.py:219-229 | a hash never issued is refused and the store is unchanged |
| SessionRuns.ReplayInTheLastSecondCanMissTheFamily | backend/shared_kernel/auth/tokens.py:126-138 | a run in which a replay within the last second leaves the family live |
| SessionInterleaved.SplitStepKeeps | backend/shared_kernel/auth/tokens.py:103-139 | agreement up to one second before the expiry survives every interleaved step |
| SessionInterleaved.KillReachesEveryLiveSession | backend/shared_kernel/auth/tokens.py:159-172 | in every interleaved run, up to one second before the expiry, each live session is listed and indexed, so a kill leaves none |
| SessionInterleaved.IndexedReplayKillsTheFamily | backend/shared_kernel/auth/tokens.py:105-108 | a hash that is not live but still indexed ends its family, interleaved or not |
| SessionInterleaved.EmptyFamilyStaysEmptyWhenQuiet | backend/shared_kernel/auth/tokens.py:103-139 | without a rotation under way an empty family stays empty |
| SessionInterleaved.EmptyFamilyRevivableIffPending | backend/shared_kernel/auth/tokens.py:103-139 | an empty family can come back in one step if and only if a rotation of it has read and not committed |
| SessionInterleaved.StepForksExactly | backend/shared_kernel/auth/tokens.py:103-139 | from at most one live session of a family, a step leaves two if and only if it commits a rotation of that family while a hash other than the spent one is live |
| SessionInterleaved.RunForksExactly | backend/shared_kernel/auth/tokens.py:103-139 | an interleaved run has two live sessions of a family in some state if and only if one of its steps is such a commit |
| SessionInterleaved.TwoReadersForkTheChain | backend/shared_kernel/auth/tokens.py:103-139 | a run in which two rotations of one token both succeed |
| SessionInterleaved.ConsumedTokenTraceableExactly | backend/shared_kernel/auth/tokens.py:103-139 | in every interleaved run, up to one second before the expiry, a consumed token is refused and traceable, and so ends its family, if and only if its index entry was there when its rotation committed, or nothing was live |
| SessionInterleaved.KillDuringRotationLosesTheTrace | backend/shared_kernel/auth/tokens.py:159-172 | a run in which a kill between read and commit makes the consumed token untraceable |
| AgentFsGc.Newest | backend/app/workers/agent_fs_gc.py:478-488 | the newest stamp of a listing, absent if and only if the listing is empty or an object is unstamped |
| AgentFsGc.NewestObject | backend/app/workers/agent_fs_gc.py:478-488 | the loop with its early return computes it |
| AgentFsGc.VolumeFateExactly | backend/app/workers/agent_fs_gc.py:256-279 | each of the five fates of a volume, if and only if its row, age and daemon answer call for it |
| AgentFsGc.SessionFateExactly | backend/app/workers/agent_fs_gc.py:395-443 | the fates of a session volume judged on two tables, both directions |
| AgentFsGc.PrefixFateExactly | backend/app/workers/agent_fs_gc.py:569-624 | the fates of a workspace prefix, both directions: an orphan is due if and only if its listing is non-empty and every object is stamped and older than the cutoff, and objects are deleted only when it is due and the sweep armed |
| AgentFsGc.NamedSelects | backend/app/workers/agent_fs_gc.py:602 | the deletion targets are the objects with a name, in listing order, as often as listed |
| AgentFsGc.DeletionExactly | backend/app/workers/agent_fs_gc.py:613-624 | the removed names are, in order, the non-empty names of the listing before the first named object that refuses |
| AgentFsGc.SweepVolumes | backend/app/workers/agent_fs_gc.py:527-566 | counters are the numbers of artifacts of each fate, and exactly the purged ones are removed |
| AgentFsGc.SweepSessionVolumes | backend/app/workers/agent_fs_gc.py:395-452 | the same for session volumes |
| AgentFsGc.RemoveObjects | backend/app/workers/agent_fs_gc.py:617-624 | objects go in order up to the first that refuses |
| AgentFsGc.SweepWorkspaceObjects | backend/app/workers/agent_fs_gc.py:569-634 | counters and removed objects for every pattern of listing and removal failures, partial removals included |
| AgentFsGc.VolumeReportExactly | backend/app/workers/agent_fs_gc.py:527-566 | each counter of a volume sweep is the number of volumes whose row, age and daemon answer it stands for |
| AgentFsGc.SessionReportExactly | backend/app/workers/agent_fs_gc.py:395-452 | the same for session volumes, judged on two tables |
| AgentFsGc.PrefixReportExactly | backend/app/workers/agent_fs_gc.py:569-634 | the same for prefixes, a purge being a prefix emptied whole |
| AgentFsGc.AllRemovedConcat | backend/app/workers/agent_fs_gc.py:613-634 | the objects removed by a pass are those of its prefixes, one prefix after the other |
| AgentFsGc.TallyConserves | backend/app/workers/agent_fs_gc.py:106-132 | what was seen is the sum of its dispositions, armed and unarmed, and an unarmed sweep removes nothing |
| AgentFsGc.PurgedCountsRemovals | backend/app/workers/agent_fs_gc.py:552-557 | the purge counter is the number of artifacts removed |
| AgentFsGcSweep.DeletedAt | backend/app/workers/agent_fs_gc.py:282-329 | the loop over batches finds for each id what the query of its batch saw, and fails if and only if a query fails; no ids, no query |
| AgentFsGcSweep.JoinExactly | backend/app/workers/agent_fs_gc.py:282-329 | each id is matched exactly as its own batch saw it, whatever the other batches saw |
| AgentFsGcSweep.SweepOnce | backend/app/workers/agent_fs_gc.py:664-757 | one pass, every query seeing its own state of the tables, removes and reports exactly what its specification says, and nothing at all when a query raises or a guard refuses |
| AgentFsGcSweep.SweepConserves | backend/app/workers/agent_fs_gc.py:748-757 | the combined report accounts for everything seen, every counter counts what its name says, and an unarmed pass removes nothing |
| AgentFsGcSweep.RefusesExactly | backend/app/workers/agent_fs_gc.py:691-717 | a pass refuses if and only if every lookup answered, artifacts exist, none of their agents had a row in its own batch, and the later probe found the table empty |
| AgentFsGcSweep.SweptUnlessRefused | backend/app/workers/agent_fs_gc.py:695-717 | with every query answered a pass goes ahead if and only if there are no artifacts, an agent matched or the probe found a row |
| AgentFsGcSweep.UnusableAgentsTableRemovesNothing | backend/app/workers/agent_fs_gc.py:707-717 | an agents table unreadable or without a match at the lookup, and unreadable or empty at the probe, costs no artifact |
| AgentFsGcSweep.UnusableRoomsTableRemovesNoSession | backend/app/workers/agent_fs_gc.py:719-735 | the same of the chatrooms table and session volumes |
| AgentFsGcSweep.FilledBeforeTheProbe | backend/app/workers/agent_fs_gc.py:691-717 | when nothing matches at the lookup and the probe finds a row, an armed pass goes ahead and removes a volume if and only if it is older than the cutoff and the daemon agrees |
| AgentFsGcSweep.RestoreBetweenLookupAndProbe | backend/app/workers/agent_fs_gc.py:691-717 | a table empty at the lookup and restored before the probe, and a pass that removes a volume because of it |
| AgentFsGcSweep.RefusalCountsAgentsNotArtifacts | backend/app/workers/agent_fs_gc.py:715-717 | the refusal counts distinct agents, which equals the artifacts if and only if no agent has two |
| AgentFsGcSweep.RefusalUndercounts | backend/app/workers/agent_fs_gc.py:707-717 | a host with one agent, a volume and a prefix: two artifacts, and the refusal reports one |
| AgentFsGcSweep.RemovedVolumeExactly | backend/app/workers/agent_fs_gc.py:256-279 | a pass removes a volume if and only if it is armed, the daemon agrees, and the row has left the window or is absent with the volume older than the cutoff |
| AgentFsGcSweep.RemovedSessionExactly | backend/app/workers/agent_fs_gc.py:395-452 | a pass removes a session volume if and only if it is armed, a room matched or the probe found one, the daemon agrees, and either row has left the window or one is absent with the volume older than the cutoff |
| AgentFsGcSweep.RemovedPrefixExactly | backend/app/workers/agent_fs_gc.py:569-634 | a pass deletes the named objects of a prefix in order, up to the first that refuses, if and only if the prefix is due and the pass armed, and counts it purged if and only if none refused |
| AgentFsGcSweep.DeletedObjectsExactly | backend/app/workers/agent_fs_gc.py:569-634 | for a prefix due in an armed pass exactly the named objects up to the first that refuses go, each once and in order, and all of them when it counts as purged; otherwise none |
| AgentFsGcSafety.GoneFrame | backend/app/workers/agent_fs_gc.py:22-32 | a row disappears only after its own stamp, its project's or its org's has left the window |
| AgentFsGcSafety.HistoryStep | backend/app/workers/agent_fs_gc.py:22-32 | every environment step keeps: a stamped row stopped being undeleted no later than its stamp, and a gone leaf was last live before the window |
| AgentFsGcSafety.ReclaimableWasNotLive | backend/app/workers/agent_fs_gc.py:22-37 | an id the row test lets through was live at no moment of the last sixty days |
| AgentFsGcSafety.SweepSparesRecentlyLiveAgents | backend/app/workers/agent_fs_gc.py:22-37 | in every run no pass removes a volume whose agent was live in the sixty days before the batch of its row was read, each batch reading its own state |
| AgentFsGcSafety.SweepSparesRecentlyLivePrefixes | backend/app/workers/agent_fs_gc.py:22-37 | nor any object of a workspace prefix of such an agent |
| AgentFsGcSafety.SweepSparesRecentlyLiveSessions | backend/app/workers/agent_fs_gc.py:395-452 | nor a session volume unless its agent was live at no moment of the window before its batch, or its room at none of the window before its own |
| AgentFsGcSafety.AgeFloorBlocksNoLegitimatePurge | backend/app/workers/agent_fs_gc.py:34-37 | a volume made while its agent was live, whose row was gone by the time the cutoff is taken from, is removed by every armed pass that goes ahead, unless the daemon refuses |
| AgentFsGcSafety.UndeletedAfterReadExactly | backend/app/workers/agent_fs_gc.py:685-743 | a row not undeleted when read is undeleted at a later state if and only if a restore, or a first creation, in between was followed by no delete or purge of it |
| AgentFsGcSafety.UsedRowsReturnOnlyByRestore | backend/app/workers/agent_fs_gc.py:685-743 | an agent that existed is live again only if its row was still there at the read and was restored since; a purged row never returns |
| AgentFsGcSafety.RestoreBetweenReadAndRemoval | backend/app/workers/agent_fs_gc.py:685-743 | a run in which a restored agent loses its volume |
| Uuids.HexDigitAt | backend/app/workers/agent_fs_gc.py:143-157 | each digit is that of the number in base sixteen, most significant first |
| Uuids.TextLayout | backend/app/workers/agent_fs_gc.py:143-157 | groups of 8, 4, 4, 4 and 12 digits with hyphens between |
| VolumeNames.StrictAcceptsExactlyCanonical | backend/app/workers/agent_fs_gc.py:143-157 | over any lenient parser, the strict one accepts exactly the canonical text of an id |
| VolumeNames.AgentNamesExactly | backend/app/workers/agent_fs_gc.py:139-173 | a name parses to an agent if and only if it is that agent's volume name |
| VolumeNames.SessionNamesExactly | backend/app/workers/agent_fs_gc.py:176-199 | a name parses to a pair if and only if it is that pair's session volume name |
| VolumeNames.PrefixNamesExactly | backend/app/workers/agent_fs_gc.py:202-214 | a key parses to an agent if and only if it is that agent's top-level prefix |
| VolumeNames.NoNameIsAcceptedTwice | backend/app/workers/agent_fs_gc.py:160-199 | no name is both an agent's volume and a session's |
| VolumeNames.LooseParseReadsCanonical | backend/app/workers/agent_fs_gc.py:143-157 | a parser taking hyphens anywhere and digits of either case reads every canonical text back |
| JsonMerge.MergeJsonConfig | backend/shared_kernel/json_merge.py:30-42 | the copying loop with pop and assignment computes the merge, recursion included |
| JsonMerge.GetMerge | backend/shared_kernel/json_merge.py:33-41 | what each key holds afterwards: its stored value, or that combined with the patch's |
| JsonMerge.MergeIsMergePatchExactly | backend/shared_kernel/json_merge.py:30-42 | the merge is MergePatch of section 2 of RFC 7396 if and only if every patch object that misses a stored object is free of nulls |
| JsonMerge.MergeIsIdempotentExactly | backend/shared_kernel/json_merge.py:30-42 | applying a patch twice is applying it once if and only if the same condition holds |
| JsonMerge.NestedNullIsStored | backend/shared_kernel/json_merge.py:30-42 | a nested null on an empty object is stored, where the RFC drops it, and a second application strips it |
| JsonMerge.MergeIsNoOpExactly | backend/shared_kernel/json_merge.py:30-42 | a merge changes nothing if and only if no key of the patch changes |
| JsonMerge.UntouchedPathsKeepTheirValue | backend/shared_kernel/json_merge.py:11-17 | a path the patch does not touch keeps its stored value or absence, whatever the patch |
| JsonMerge.PatchedLeavesAreWritten | backend/shared_kernel/json_merge.py:13-14 | a scalar or list in the patch is what the result has at its path |
| JsonValues.PutKeepsPlaces | backend/shared_kernel/json_merge.py:39-41 | assigning to a key that is there changes its member in place |
| JsonValues.RemoveSelects | backend/shared_kernel/json_merge.py:36-37 | deleting a key keeps the other members in order |
| JsonBounds.Measure | backend/shared_kernel/validation.py:29-48 | the stack walk terminates with the recursive depth and node count of every value |
| JsonBounds.DepthIsTheLongestPath | backend/shared_kernel/validation.py:29-48 | a value has depth above n if and only if a path of length n leads somewhere in it |
| JsonBounds.NodesCountThePaths | backend/shared_kernel/validation.py:29-48 | a value has as many nodes as paths that lead somewhere in it |
| JsonBounds.PathsExactly | backend/shared_kernel/validation.py:29-48 | the paths counted are exactly those that lead somewhere |
| JsonText.EncodedIsPrintable | backend/shared_kernel/validation.py:70-74 | the serialised form is printable ASCII, so the size in bytes is its length |
| JsonText.EncodedSize | backend/shared_kernel/validation.py:70-74 | the serialised form has the size counted from the value: quotes, a cost for each code point, digits, commas, colons and brackets |
| JsonBounds.JsonBoundsViolation | backend/shared_kernel/validation.py:51-78 | no violation if and only if depth and nodes fit and the value serialises within the bytes; otherwise the first refusal in order, with its measured value |
| JsonBounds.MergeIsBounded | backend/shared_kernel/validation.py:58-65 | a merge is no deeper than its inputs and has at most their nodes less one and their bytes less one |
| JsonBounds.ManyMergesAreBounded | backend/shared_kernel/validation.py:58-65 | N patches add at most the sum of their nodes, and of their bytes, less one each, and no depth |
| JsonBounds.SmallPatchesReachTheBound | backend/shared_kernel/validation.py:58-65 | any number of two-node patches that fixed-width keys can tell apart, each within the limits on depth, nodes and bytes, reach exactly the bound on nodes |
| OwnerIndexDowngrade.KindsAreIndependent | backend/alembic/versions/0061_graphrag_owner_index_live_only.py:43-53 | the delete of one owner kind does not change which rows of another are shadowed |
| OwnerIndexDowngrade.Downgrade | backend/alembic/versions/0061_graphrag_owner_index_live_only.py:38-60 | exactly the live row, or else the deleted row made last with the larger id deciding, of each owner survives unchanged, no live row goes, and no two rows share a chatroom, group or workspace |
| OwnerIndexDowngrade.EveryOwnerKeepsOneRow | backend/alembic/versions/0061_graphrag_owner_index_live_only.py:38-60 | every owner with a row keeps exactly one, live if and only if it had a live one |
| SessionAdoption.BackfillIsDeterministic | backend/alembic/versions/0077_activity_session_activation.py:71-83 | with one active activation per room every permitted result of the update is the same |
| SessionAdoption.Backfill | backend/alembic/versions/0077_activity_session_activation.py:75-83 | each claimed session takes a matching activation and no other row changes |
| SessionAdoption.Upgrade | backend/alembic/versions/0077_activity_session_activation.py:97-122 | sessions still open point to the active activation of their room and type, other formerly open ones are closed, closed ones are untouched, and both unique indexes hold |
| SessionAdoption.ClosingFirstAdoptsNothing | backend/alembic/versions/0077_activity_session_activation.py:112-114 | in the other order every session is closed and none adopted |
| OwnerRoundTrip.BackfillSingletonGroups | backend/alembic/versions/0043_graphrag_owner.py:122-167 | each config gets its own group with its agent as only member, in any row order |
| OwnerRoundTrip.BackfillMeetsEveryConstraint | backend/alembic/versions/0044_graphrag_drop_agent_id.py:35-53 | then the live-name index, the owner indexes and the owner CHECK hold for every row |
| OwnerRoundTrip.Contract | backend/alembic/versions/0044_graphrag_drop_agent_id.py:45-53 | the contract step succeeds if and only if every row passes the CHECK, and drops only the legacy column |
| OwnerRoundTrip.Rebuild | backend/alembic/versions/0044_graphrag_drop_agent_id.py:77-86 | each config takes some member of its group, or null without one |
| OwnerRoundTrip.RoundTripRestoresEveryAgent | backend/alembic/versions/0044_graphrag_drop_agent_id.py:77-87 | up through both and down again restores the agent of every config, non-null and unique, for every choice of the subquery |
| OwnerRoundTrip.DowngradeWorksExactly | backend/alembic/versions/0044_graphrag_drop_agent_id.py:77-87 | the legacy constraints hold for every choice if and only if every group has a member and no two share one |
| OwnerRoundTrip.MemberlessGroupBlocksTheDowngrade | backend/alembic/versions/0044_graphrag_drop_agent_id.py:77-86 | a config that passes the owner CHECK but whose group is empty, on which no choice of the subquery meets NOT NULL |
| PagedRepair.PageSkipsNothing | backend/alembic/versions/0101_blank_display_names.py:84-89 | a page holds every candidate up to its own last key |
| PagedRepair.ShortPageIsTheLast | backend/alembic/versions/0101_blank_display_names.py:84-89 | a page has at most its limit of rows, and one that is not full leaves no candidate behind |
| PagedRepair.PagedRewrite | backend/alembic/versions/0101_blank_display_names.py:68-79 | the keyset loop terminates, visits each candidate once in key order while updating the table, and leaves what one pass would |
| PagedRepair.Repair | backend/alembic/versions/0101_blank_display_names.py:68-79 | blank names become the replacement, visible and null names are untouched, and exactly the names without an ASCII letter or digit are visited |
| PagedRepair.UpgradeBlankNames | backend/alembic/versions/0101_blank_display_names.py:82-130 | the four tables end without blank names and the two non-nullable columns stay filled |
| PagedRepair.SecondRepairChangesNothing | backend/alembic/versions/0101_blank_display_names.py:68-79 | repairing a repaired table changes nothing |
| PagedRepair.Normalise | backend/alembic/versions/0100_normalise_account_display_names.py:52-64 | the filter loop, the cut and the strips compute the frozen rule |
| PagedRepair.NormaliseNames | backend/alembic/versions/0100_normalise_account_display_names.py:70-87 | every named row is visited once in order and the table is as if rewritten at once |
| PagedRepair.SecondNormalisationChangesNothing | backend/alembic/versions/0100_normalise_account_display_names.py:5-8 | normalising a normalised table changes nothing |
| Labels.StripTakesOnlyOuterSpace | backend/shared_kernel/labels.py:79 | stripping removes spaces at the ends and nothing else |
| Labels.TruncateGraphemes | backend/shared_kernel/labels.py:116-135 | the loop over clusters computes the truncation |
| Labels.TruncationIsTheLongestFit | backend/shared_kernel/labels.py:116-135 | a text over the cap keeps the longest prefix of whole clusters that fits, or one code point |
| Labels.TruncationFitsExactly | backend/shared_kernel/labels.py:127-135 | the cap holds if and only if it is at least one or the text is empty |
| Labels.LabelsAreInNormalForm | backend/shared_kernel/labels.py:68-80 | a label is a fixed point of the rule, within the cap, stripped, without hidden characters and visible |
| Labels.LabelUnchangedExactly | backend/shared_kernel/labels.py:68-80 | a name is left as it is if and only if it fits, has no space at its ends, shows something and hides nothing but plain spaces |
| Labels.LabelKeepsTheShownText | backend/shared_kernel/labels.py:68-80 | a label is the raw name without its hidden characters, in order, trimmed, and cut and trimmed where too long |
| Labels.NothingLeftExactly | backend/shared_kernel/labels.py:68-113 | for every name and cap the result is absent if and only if no cleaned character before the cut is visible, and otherwise that text stripped; with nothing to cut this is blankness of the raw name |
| Labels.VisibleNamesKeepALabelExactly | backend/shared_kernel/labels.py:68-80 | a visible name keeps a label if and only if something visible comes before the cut |
| Labels.BlankNamesNormaliseToNothing | backend/shared_kernel/labels.py:102-113 | a blank name normalises to nothing whether or not it is cut |
| Labels.CuttingCanHideAName | backend/shared_kernel/labels.py:78-80 | for every cap there is a visible name that normalises to nothing |
| Labels.IsBlank | backend/alembic/versions/0101_blank_display_names.py:57-65 | a name is blank if and only if each character is a joiner, the blank cell, a space, a control, a mark or default-ignorable, which is the absence of a visible one |
| Labels.Normalise0100IsIdempotent | backend/alembic/versions/0100_normalise_account_display_names.py:52-64 | the frozen rule fixes its own results, which have one to fifty characters |
| Labels.Normalise0100UnchangedExactly | backend/alembic/versions/0100_normalise_account_display_names.py:52-64 | a name is left as it is if and only if it is not empty, fits, has no space at its ends and no control character but the two joiners |
| Labels.Normalise0100KeepsTheText | backend/alembic/versions/0100_normalise_account_display_names.py:52-64 | the result is the rest of the characters, in order, trimmed, and cut and trimmed where too long |
| Labels.WordsKeepEverything | backend/shared_kernel/labels.py:92 | splitting loses whitespace only |
| Labels.OneLineLabelsAreInNormalForm | backend/shared_kernel/labels.py:83-92 | a rendered label is a fixed point with the words of its text, single inner spaces, and no hidden character or delimiter |
| Labels.OneLineUnchangedExactly | backend/shared_kernel/labels.py:83-92 | a text is rendered as it is if and only if it has no delimiter, no hidden character, no space at its ends and single plain spaces inside |
| Labels.OneLineKeepsTheWords | backend/shared_kernel/labels.py:83-92 | the words of the label are those of the text without delimiters and hidden characters |
| ScanFraming.FramingRoundTripExactly | backend/shared_kernel/scanning.py:68-85 | a stream decodes to the whole data with nothing left over if and only if no chunk is empty |
| ScanFraming.PackIsBigEndian | backend/shared_kernel/scanning.py:80 | a length is four bytes, most significant first |
| ScanFraming.Chunks | backend/shared_kernel/scanning.py:53-58 | the chunks are together the data, none empty, and all but the last of 8192 bytes |
| ScanFraming.WriteChunks | backend/shared_kernel/scanning.py:77-85 | the write loop produces the command and the framed stream |
| ScanFraming.Scan | backend/shared_kernel/scanning.py:53-85 | for every input the command comes first and the daemon reads back exactly the input |
| Requirements.ParseRequirements | scripts/traceability.py:163-227 | success if and only if no defining line is ambiguous, with one entry for each; otherwise the first ambiguous line and what is wrong with it |
| Requirements.CheckMarkers | scripts/traceability.py:184-210 | two markers on a line, else an id seen before, else no heading, in that order, each naming what it found |
| Requirements.CollectBlock | scripts/traceability.py:212-222 | the text after the marker and every line up to the first that ends the block or defines anew |
| Requirements.IndexIsComplete | scripts/traceability.py:163-227 | entries are exactly the defining lines in document order, each with the id of its marker, its nearest heading and the stripped text of its block, and ids are distinct |
| CsvFile.CsvRoundTrip | scripts/traceability.py:230-245 | an RFC 4180 reader recovers header, ids, sections and summaries, whatever characters the two texts contain |
| CsvFile.CsvRecordsExactly | scripts/traceability.py:230-245 | record by record: the three column names, then id, section and summary in that order |
| CsvFile.EscapeDoublesQuotes | scripts/traceability.py:230-245 | inside quotes every character stands for itself but the quotation mark, which is doubled |
| CsvFile.EqualFilesMeanEqualRequirements | scripts/traceability.py:243-245 | equal files come from equal lists of id, section and summary |
| AuditRedaction.RedactValue | backend/shared_kernel/audit.py:78-95 | the walk that fills fresh containers computes the redaction |
| AuditRedaction.RedactionScrubs | backend/shared_kernel/audit.py:78-95 | no sensitive key stays unmasked and no secret-shaped string value remains, at any depth |
| AuditRedaction.UnchangedExactlyWhenScrubbed | backend/shared_kernel/audit.py:78-95 | redaction changes nothing if and only if there is nothing to scrub |
| AuditRedaction.RedactionIsIdempotent | backend/shared_kernel/audit.py:78-95 | redacting twice is redacting once |
| AuditRedaction.RedactionKeepsShape | backend/shared_kernel/audit.py:78-95 | keys, their order, list lengths and harmless scalars are kept wherever nothing is masked |
| AuditSession.Session.EmitEvent | backend/shared_kernel/audit.py:112-187 | a written event adds one row that says who did what to which resource, with the tagged metadata redacted key by key, and one event with the same four facts; a lost isolated one, also in an aborted transaction, only counts; any other failure raises and leaves the transaction aborted until a rollback, whole or to a savepoint of the caller |
| AuditSession.StoredRowTagsTheGuest | backend/shared_kernel/audit.py:112-124 | the stored row of a guest names the room whatever the caller put under those keys, and every other key is the caller's, redacted |
| AuditSession.OpenSavepointsExactly | backend/shared_kernel/audit.py:136-141 | a savepoint is open if and only if it was set in a transaction not aborted and nothing has ended the transaction, or released or rolled back to it or an older one, since |
| AuditSession.AbortedExactly | backend/shared_kernel/audit.py:136-141 | a transaction is aborted if and only if a statement failed in it outside a savepoint of its own and it has not been rolled back since, whole or to a savepoint |
| AuditSession.Session.FlushTailEvents | backend/shared_kernel/audit.py:221-233 | the queue is emptied and published in order, failed deliveries skipped |
| AuditSession.DeliveredSelects | backend/shared_kernel/audit.py:221-233 | what is published is the queued events whose delivery succeeds, in order |
| AuditSession.StoredRowRecordsItsEvent | backend/shared_kernel/audit.py:153-163 | over any history, a stored row with the serial of a write records the event of that write: action, actor, address, resource, session, request and metadata key by key |
| AuditSession.QueueAnnouncesExactly | backend/shared_kernel/audit.py:176-187 | over any history the queue announces, in order, exactly the writes no flush has followed, each with its action, actor and resource |
| AuditSession.FailuresCountLosses | backend/shared_kernel/audit.py:194-211 | two readings of the counter differ by the isolated emits lost between them |
| AuditSession.RowFollowsItsTransaction | backend/shared_kernel/audit.py:128-141 | a row is committed if and only if its transaction was committed unaborted with no rollback to an older savepoint before, pending if and only if none of these has happened, and otherwise gone |
| AuditSession.FlushIsBackedExactly | backend/shared_kernel/audit.py:221-233 | a flush publishes only events of existing rows if and only if every row written since the last flush was so committed |
| AuditSession.RollbackLeavesAPhantomEvent | backend/shared_kernel/audit.py:214-218 | a history whose flush publishes two events for one row |
| AuditSession.SavepointRollbackLeavesAPhantomEvent | backend/shared_kernel/audit.py:174-187 | a history in which a row is undone with the savepoint of the caller, the transaction commits, and the event stays queued |
| AuditSession.AbortedCommitLeavesAPhantomEvent | backend/shared_kernel/audit.py:136-141 | histories in which a failed emit, or any other failed statement, before the commit leaves an event and no row |
| AuditSession.SavepointConfinesAFailure | backend/app/workers/tasks/orchestration.py:457-466 | over any history, a statement that fails under a savepoint of the caller and is rolled back to it leaves the session as it was |
| AuditSession.StoredRowsAreScrubbed | backend/shared_kernel/audit.py:153-163 | whatever happened, no row in the table holds an unmasked secret |

## Left out

- The access-token denylist, `get_record` and the parsing of stored records: single reads and writes.
- A caller-supplied family id in `create_session`: no caller passes one.
- Kill and revoke split into their own reads and writes: they are kept atomic, only rotation is split.
- Redis at millisecond granularity, and clocks that differ between application and Redis.
- The collector's parsing of Docker timestamps, its logging, metrics and the retention worker itself.
- The administrative purge of a user, which removes rows inside the window on purpose.
- Floating-point numbers and lone surrogates in JSON values, and the text `default=str` gives to
  values that are not JSON.
- In-place update and sharing of nested containers by `merge_json_config`: values do not alias here.
- `agents.graphrag_config_id`, which migration 0044 drops and its downgrade rewires as best it can.
- Inline Markdown stripping, the drift report and the citation scan of the traceability script.
- The clamd connection, its timeouts and the parsing of its one-line response.
- The remaining migrations, which are schema changes or simpler backfills.
- Authentication, turn and workflow engines, retrieval, the proxy, the frontend, deployment and start-up.
