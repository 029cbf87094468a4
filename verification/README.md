# Verified models of the canvas and merge-gate logic

This project models, in Dafny, the parts of the repository that keep state over time or walk a graph: the
canvas's organisation tree, its live views of the activity stream, its timers and protocols, and the Python
gates that guard merges. Each model does what the code does, and is connected by an all-inputs theorem to a
plain definition that does not mention the code: reachability, the whole event history, the commit graph, the
serialised form.

`dafny verify dfyconfig.toml` checks everything.

## What is modelled

**Organisation tree.** `OrgTree` defines the parent graph, with dangling parents and cycles allowed.
`DeleteWorklist` is the delete confirmation's explicit stack, which has no visited check: it returns exactly the
subtree, and it ends if and only if the deleted node is not on a parent cycle. `DescendantCount` is the recursive
count with its shared visited set, correct on every graph. `DeployLocks` is the memoised root lookup with path
compression, correct for every sequence of calls from an empty cache, and the drag locks projected from it.

**Views of the activity stream.** `CommsFeed` is the 20-row communications list, cut after every change:
cutting loses nothing, because the list after any run is the cut of the whole history. `DelegationEdges`
aggregates rows into edges under a joined key, and `RollingBuffer` prunes the rows while publishing the edges of
a log that was never pruned, in exactly the runs named below. `Flights` is the bounded list of message envelopes
with one expiry timer each. The components' objects carry the events they have seen, and what they show is tied to
those events (`Shown`, `Current`, `Drawn`).

**Timers and protocols.** `TimeoutWatchdog` is the provisioning banner as a state machine over snapshots, ticks,
dismissals, retries and cancellations; `ProvisioningCodec` is the packed string it subscribes to. `StopAll` is
the cancel, drain and restart protocol against an arbitrary store and clock. `MigrationCheck` is the collision script, and
`MigrationProtocol` the pull requests around it. `MergeGuard` is the dropped-commit guard over a commit graph.

**Parsing, grouping and gates.** `Multipart` is the echo runtime's parser against the serialisation of section
5.1.1 of RFC 2046, `Disposition` is its file name expression, and `MultipartPreamble` decides which preambles it
survives. `ProviderCatalog` buckets models by vendor and credentials. `GateCheck` folds CI statuses and gate verdicts
into an exit code and walks the target branch page by page.

`Options`, `Letters`, `Delimited`, `Numerals`, `SortedStrings`, `Grouping` and `FirstPerId` hold what several models share.

## Properties that hold only under a condition

- The delete worklist runs forever when the node is on a parent cycle (`DeleteWorklist.TerminatesIff`).
- Aggregation is exact if and only if no two pairs share a key (`DelegationEdges.AggregationExact`); ids free of
  the arrow give that, and `DelegationEdges.ArrowInIdMergesPairs` shows two pairs merged.
- The rolling buffer agrees with the unpruned log at every moment if and only if no merge meets a shadowed id: one
  the fetch did not bring, whose first row was already pruned while the first of its later rows is still in the
  window (`RollingBuffer.BufferExactIff`). The edges then published differ exactly when such a row counts
  (`RollingBuffer.PublishedIff`, `RollingBuffer.RestampedRowDiffers`). One timestamp per row id rules shadowing out
  (`RollingBuffer.StampedRunsNeverShadow`); a second timestamp alone does no harm
  (`RollingBuffer.RestampedInWindowAgrees`).
- The packed string gives the nodes back if and only if no id or runtime holds a separator
  (`ProvisioningCodec.RoundTripIff`).
- The catalogue's entries are the classes of equal vendor and credentials if and only if the pieces between the `|`
  of their keys separate those classes (`ProviderCatalog.CatalogExact`). A `|` in a vendor name or in a credential can
  merge two classes (`ProviderCatalog.PipeMergesVendors`, `ProviderCatalog.PipeMergesCredentials`); without any, only
  an empty credential list and a single empty name are confused (`ProviderCatalog.KeyIff`).
- The migration check passes too much exactly when a listing hides an open pull request that shares a number
  (`MigrationProtocol.ScriptDecidesIff`). Over a run, live passes stay apart if and only if no passing check's listing
  hid one that had itself passed (`MigrationProtocol.InvIff`), and then no merge collides
  (`MigrationProtocol.MergeSafe`); when the API does not answer, both of two colliding pull requests pass and merge
  (`MigrationProtocol.BlindMergesCollide`).
- The multipart parser, with its own file name expression, returns the first file of every message behind a preamble
  if and only if the preamble holds no two dashes in a row and does not end in one
  (`MultipartPreamble.ParserSurvivesIff`). Behind any other it misreads the boundary, and a file whose content is the
  misread delimiter does not come back (`MultipartPreamble.DashedLoses`); `a--b` on a line of its own is enough
  (`MultipartPreamble.DashedLineLoses`).
- A file name is the one its header spells, unless the name ends in `filename=` and the content holds a quote: then the
  expression reads on into the content (`Disposition.HeaderNamesIff`).

Where the code and its comments differ, the model follows the code: the gate's comment says a pending required
check blocks, but a pending verdict exits 0 (`GateCheck.PendingExitsZero`); the multipart comment speaks of the first
line starting with two dashes, but the code takes the first two dashes anywhere.

## Model

| member | source | states |
|---|---|---|
| `DeleteWorklist.DeleteSubtree` | canvas/src/components/Canvas.tsx:255-263 | the stack loop ends and returns exactly the node and everything that reaches it by parent links |
| `DeleteWorklist.TerminatesIff` | canvas/src/components/Canvas.tsx:255-263 | the unguarded loop empties its stack if and only if the node is not on a parent cycle |
| `DeleteWorklist.CycleKeepsStack` | canvas/src/components/Canvas.tsx:257-263 | on a cycle the stack still holds a node of a cycle after every number of rounds |
| `DeleteWorklist.ExpandKeepsInv` | canvas/src/components/Canvas.tsx:257-263 | a round keeps stack and result disjoint, below the start and closed under children of popped nodes, and pops a new node |
| `DescendantCount.CountDescendants` | canvas/src/components/WorkspaceNode.tsx:465-474 | new visits are closed under children, lie below the node, and the count is the number of rows under them |
| `DescendantCount.CountAll` | canvas/src/components/WorkspaceNode.tsx:465-474 | on any graph, cyclic or not, the count is the number of nodes reaching the start in one or more parent steps |
| `DescendantCount.CountIsSubtreeMinusOne` | canvas/src/components/WorkspaceNode.tsx:464-474 | off cycles the count is the delete subtree's size minus one |
| `DeployLocks.RootIndex.Resolve` | canvas/src/components/Canvas.tsx:140-165 | with any cache built so far, the answer is the parentless ancestor, or the id itself on cycles and dangling chains, and the cache stays right |
| `DeployLocks.RootIndex.Remember` | canvas/src/components/Canvas.tsx:151-160 | every id passed on the walk is cached under the root found, and no other entry changes |
| `DeployLocks.CycleHasNoRoot` | canvas/src/components/Canvas.tsx:146-165 | a walk that returns to where it was reaches no root, which is why breaking off answers the id |
| `DeployLocks.CountProvisioning` | canvas/src/components/Canvas.tsx:167-172 | a root is counted exactly when some provisioning row resolves to it |
| `DeployLocks.ProjectLocks` | canvas/src/components/Canvas.tsx:135-199 | only draggable flags change: off where locked, back to the default where a lock is gone; rows pass through untouched when nothing deploys or deletes |
| `DeployLocks.IndexMeaning` | canvas/src/components/Canvas.tsx:140-141 | the index knows exactly the ids of the rows, each by its last row |
| `DeployLocks.RootedIff` | canvas/src/components/Canvas.tsx:140-165 | the walk finds a root exactly when the rows' parent links lead from the node to a row without a parent |
| `DeployLocks.LockIff` | canvas/src/components/Canvas.tsx:167-182 | for any rows, duplicates and cycles included, locked is who is being deleted or hangs below a root that a provisioning row also has |
| `DeployLocks.DeployLockMeaning` | canvas/src/components/Canvas.tsx:140-182 | over the rows' parent links alone: locked is who is being deleted, or who is strictly inside the tree of a parentless row that also holds a provisioning one |
| `CommsFeed.FeedIsBatch` | canvas/src/components/CommunicationOverlay.tsx:124-135 | after any run the list is the cut, deduplicated stable sort of the last fetch and every later event |
| `CommsFeed.HistoryMeaning` | canvas/src/components/CommunicationOverlay.tsx:124-135 | that history is the live rows since the last fetch, latest first, then the fetched ones |
| `CommsFeed.CutCommutes` | canvas/src/components/CommunicationOverlay.tsx:193-202 | cutting before inserting a row gives the same list as inserting into the uncut one |
| `CommsFeed.StableSortUnique` | canvas/src/components/CommunicationOverlay.tsx:126-127 | stability and newest-first order determine the sorted list |
| `CommsFeed.FeedShape` | canvas/src/components/CommunicationOverlay.tsx:124-133 | the list holds history rows, newest first, distinct ids, at most 20 |
| `CommsFeed.NothingNewerLost` | canvas/src/components/CommunicationOverlay.tsx:124-133 | a missing row is outdone by a shown row of its id at least as new, or by 20 rows at least as new |
| `FirstPerId.FilterSeen` | canvas/src/components/CommunicationOverlay.tsx:125-132 | the filter with its seen set keeps the first row of each id |
| `FirstPerId.KeptIffFirst` | canvas/src/components/CommunicationOverlay.tsx:125-132 | kept is exactly what comes first of its id |
| `CommsFeed.Overlay.BootstrapComms` | canvas/src/components/CommunicationOverlay.tsx:124-135 | the fetch replaces the list by its own sorted, deduplicated cut |
| `CommsFeed.Overlay.OnActivity` | canvas/src/components/CommunicationOverlay.tsx:189-203 | an event is put in front, then the list is sorted, deduplicated and cut, which keeps the list that of the events seen |
| `CommsFeed.Overlay.Shown` | canvas/src/components/CommunicationOverlay.tsx:235-236 | after any calls the rows drawn are the batch of the whole history: newest first, distinct, at most 20, and nothing newer missing |
| `DelegationEdges.BuildEdges` | canvas/src/components/A2ATopologyOverlay.tsx:41-120 | one edge per key of the qualifying rows, in first-seen order, with the group's size and latest time |
| `DelegationEdges.AggregationExact` | canvas/src/components/A2ATopologyOverlay.tsx:58-73 | one edge per pair with that pair's exact count and latest time, if and only if the keys separate the pairs |
| `DelegationEdges.EdgesByPair` | canvas/src/components/A2ATopologyOverlay.tsx:47-80 | over all rows given: one edge for each pair with delegations of the last hour and no other, counting exactly those, with the time of the latest and hot under five minutes |
| `DelegationEdges.ArrowFreeSeparates` | canvas/src/components/A2ATopologyOverlay.tsx:65-65 | sources without the arrow keep the joined key injective |
| `DelegationEdges.ArrowInIdMergesPairs` | canvas/src/components/A2ATopologyOverlay.tsx:65-72 | for all ids a, b, c the pairs (a→b, c) and (a, b→c) land in one edge |
| `DelegationEdges.CountsConserved` | canvas/src/components/A2ATopologyOverlay.tsx:62-73 | the edge counts add up to the qualifying rows |
| `DelegationEdges.OrderIrrelevant` | canvas/src/components/A2ATopologyOverlay.tsx:58-80 | permuted rows give the same edges |
| `RollingBuffer.RollingBufferExact` | canvas/src/components/A2ATopologyOverlay.tsx:204-249 | after any run in which no merge meets a shadowed id, the edges pushed are those of the unpruned log at the last clock reading, order included, and none after a clear |
| `RollingBuffer.LogAfterFetch` | canvas/src/components/A2ATopologyOverlay.tsx:235-244 | after a fetch the log has one row per id: the fetch's first, or else the log's own first |
| `RollingBuffer.LogAfterLive` | canvas/src/components/A2ATopologyOverlay.tsx:302-303 | live rows are appended one by one, and a clear leaves nothing |
| `RollingBuffer.BufferExactIff` | canvas/src/components/A2ATopologyOverlay.tsx:204-249 | over every run buffer and log hold the same rows in the window at every moment, if and only if no merge ever meets a shadowed id |
| `RollingBuffer.PublishedIff` | canvas/src/components/A2ATopologyOverlay.tsx:235-245 | from agreeing rows a merge publishes the edges of the unpruned log if and only if no shadowed id has a first surviving row that qualifies |
| `RollingBuffer.MergeIff` | canvas/src/components/A2ATopologyOverlay.tsx:238-245 | merging into the pruned log keeps the same rows exactly when no id outside the fetch is shadowed, and strictly more rows otherwise |
| `RollingBuffer.PruneThenDedup` | canvas/src/components/A2ATopologyOverlay.tsx:205-244 | pruning before removing duplicates keeps the same rows exactly when no id is shadowed, and strictly more otherwise |
| `RollingBuffer.RestampedRowDiffers` | canvas/src/components/A2ATopologyOverlay.tsx:238-245 | every row repeated live under a fresh qualifying timestamp after its first copy expired makes buffer and log publish different edges at the next merge |
| `RollingBuffer.RestampedInWindowAgrees` | canvas/src/components/A2ATopologyOverlay.tsx:238-245 | the same repetition while the first copy is still in the window leaves buffer and log in agreement |
| `RollingBuffer.StampedRunsNeverShadow` | canvas/src/components/A2ATopologyOverlay.tsx:204-249 | a run in which every row id has one timestamp never meets a shadowed id |
| `RollingBuffer.TopologyOverlay.RecomputeAndPush` | canvas/src/components/A2ATopologyOverlay.tsx:204-210 | rows outside the window go, the rest are re-aggregated |
| `RollingBuffer.TopologyOverlay.FinishBootstrap` | canvas/src/components/A2ATopologyOverlay.tsx:235-245 | fetched rows first, one row per id, then prune and publish: the buffer and the edges stay those of the events seen, this one added |
| `RollingBuffer.TopologyOverlay.OnDelegation` | canvas/src/components/A2ATopologyOverlay.tsx:302-303 | append without deduplication, then prune and publish: the buffer and the edges stay those of the events seen, this one added |
| `RollingBuffer.TopologyOverlay.ClearAll` | canvas/src/components/A2ATopologyOverlay.tsx:253-256 | hiding the overlay empties buffer and edges |
| `RollingBuffer.TopologyOverlay.Drawn` | canvas/src/components/A2ATopologyOverlay.tsx:204-259 | after any calls, if the clock never went back and no merge met a shadowed id: nothing after a clear, else the edges of the unpruned log, counting its calls pair by pair where keys separate the pairs |
| `Flights.FlightsExact` | canvas/src/hooks/useA2AFlights.ts:57-107 | in every reachable state the list is the last 12 takeoffs neither expired nor cleared, and the timers are those still pending |
| `Flights.FlightsByClock` | canvas/src/hooks/useA2AFlights.ts:57-107 | when no timer is overdue the list is the last 12 takeoffs since the last clear that are less than the lifetime old |
| `Flights.FlightsBounded` | canvas/src/hooks/useA2AFlights.ts:77-100 | never more than 12 flights, each launched by an admitted message of the run between that message's own two distinct endpoints, with motion never reduced since |
| `Flights.AirworthyIff` | canvas/src/hooks/useA2AFlights.ts:85-94 | a message can carry a flight exactly when it has a flight kind and two distinct non-empty endpoints, the workspace standing in for a missing source |
| `Flights.ArrivalTakesOff` | canvas/src/hooks/useA2AFlights.ts:76-107 | every enabled such arrival with motion on adds exactly that flight, under its key and time; any other adds none |
| `Flights.AloftIsShown` | canvas/src/hooks/useA2AFlights.ts:76-107 | a flight less than its lifetime old, not cleared and with at most 11 later takeoffs is in the list |
| `Flights.ReducedIsLast` | canvas/src/hooks/useA2AFlights.ts:60-63 | the motion preference is that of its last change |
| `Flights.FirstFires` | canvas/src/hooks/useA2AFlights.ts:102-106 | equal delays make the oldest timer fire first |
| `Flights.Hook.OnMessage` | canvas/src/hooks/useA2AFlights.ts:76-107 | an admitted message appends a flight to the last 11 and arms its timer |
| `Flights.Hook.OnTimer` | canvas/src/hooks/useA2AFlights.ts:102-105 | the earliest due timer removes its own flight and itself |
| `Flights.Hook.OnMotionChange` | canvas/src/hooks/useA2AFlights.ts:60-63 | reduced motion drops every flight but no timer |
| `Flights.Hook.Current` | canvas/src/hooks/useA2AFlights.ts:109-110 | after any calls the hook returns at most 12 flights, each launched by a message it saw; exactly the last ones neither expired nor cleared, and every one still aloft |
| `TimeoutWatchdog.FlagsSound` | canvas/src/components/ProvisioningTimeout.tsx:117-211 | every flag comes from a tick at least base + 45 s per queue slot after a snapshot since which the workspace was always present and neither retried nor cancelled |
| `TimeoutWatchdog.FlagsComplete` | canvas/src/components/ProvisioningTimeout.tsx:120-191 | a workspace present since a sync and not retried or cancelled is flagged by a tick that comes that long after it |
| `TimeoutWatchdog.TrackingIff` | canvas/src/components/ProvisioningTimeout.tsx:120-129 | tracked is exactly who is in an unbroken stay, since the reading of its first sync |
| `TimeoutWatchdog.FlaggedIff` | canvas/src/components/ProvisioningTimeout.tsx:131-211 | flagged is exactly who some tick found overdue, by its timeout and 45 s per node beyond three, and whom no later snapshot lacked and no dismissal, retry or cancel named |
| `TimeoutWatchdog.DismissedIff` | canvas/src/components/ProvisioningTimeout.tsx:135-145 | a dismissal lasts exactly until a snapshot lacks the workspace |
| `TimeoutWatchdog.ShownIff` | canvas/src/components/ProvisioningTimeout.tsx:281-287 | shown is exactly, while connected, who is flagged in that sense and whose dismissal does not last |
| `TimeoutWatchdog.TickAppends` | canvas/src/components/ProvisioningTimeout.tsx:183-191 | a tick appends to the list before it |
| `TimeoutWatchdog.TrackingSound` | canvas/src/components/ProvisioningTimeout.tsx:120-129 | what is tracked has been in every snapshot since its recorded start, with no retry or cancel since |
| `TimeoutWatchdog.FlagsProvisioning` | canvas/src/components/ProvisioningTimeout.tsx:131-191 | flagged workspaces are in the current snapshot |
| `TimeoutWatchdog.FlagsDistinct` | canvas/src/components/ProvisioningTimeout.tsx:183-191 | no workspace is flagged twice when snapshots have distinct ids |
| `TimeoutWatchdog.DismissedHidden` | canvas/src/components/ProvisioningTimeout.tsx:135-145 | a dismissed workspace stays hidden until some snapshot lacks it |
| `TimeoutWatchdog.Banner.OnSync` | canvas/src/components/ProvisioningTimeout.tsx:117-145 | each new node starts at its own clock reading, absent ones lose tracking, flag and dismissal, and the state stays that of the events seen |
| `TimeoutWatchdog.Track` | canvas/src/components/ProvisioningTimeout.tsx:120-129 | the loop keeps old starts, gives each new id the reading of its first node, and keeps only the ids of the snapshot |
| `TimeoutWatchdog.Banner.OnTick` | canvas/src/components/ProvisioningTimeout.tsx:148-192 | every overdue node not yet flagged is appended |
| `TimeoutWatchdog.Banner.OnDismiss` | canvas/src/components/ProvisioningTimeout.tsx:197-200 | the workspace is dismissed and its flag removed, tracking kept |
| `TimeoutWatchdog.Banner.OnForget` | canvas/src/components/ProvisioningTimeout.tsx:208-211 | a successful retry or cancel drops flag and tracking, not the dismissal |
| `TimeoutWatchdog.Banner.Shown` | canvas/src/components/ProvisioningTimeout.tsx:281-287 | after any calls, by the events alone: while connected exactly the workspaces some tick found overdue and that were left alone since, less those whose dismissal lasts, each entry with its cause |
| `ProvisioningCodec.RoundTripIff` | canvas/src/components/ProvisioningTimeout.tsx:89-115 | for every faithful way of writing numbers, decoding returns every list, separators in names replaced, if and only if ids and runtimes hold no separator |
| `ProvisioningCodec.IntegersFaithful` | canvas/src/components/ProvisioningTimeout.tsx:95-112 | decimal integers are read back as themselves and hold no separator |
| `ProvisioningCodec.DecodedClean` | canvas/src/components/ProvisioningTimeout.tsx:100-115 | no decoded id or runtime holds a separator |
| `ProvisioningCodec.NodeRoundTrip` | canvas/src/components/ProvisioningTimeout.tsx:92-112 | one node survives packing, its optional number included, without a comma |
| `StopAll.Run` | canvas/src/components/Toolbar.tsx:114-170 | in every world in which the loop ends, every workspace with active tasks is cancelled, restarted are exactly those of them busy in every poll, the world alone fixes the number of polls, and no one is restarted before 8 s |
| `StopAll.AtMost32Polls` | canvas/src/components/Toolbar.tsx:140-156 | where each wait takes its 250 ms the loop ends after at most 32 polls |
| `StopAll.StillActive` | canvas/src/components/Toolbar.tsx:147-154 | one poll keeps exactly the ids whose first row in the snapshot is busy |
| `StopAll.BusyIff` | canvas/src/components/Toolbar.tsx:148-153 | busy is exactly whose first row has active tasks; a missing workspace is not |
| `MigrationCheck.Check` | scripts/ops/check_migration_collisions.py:234-293 | exit 0 if and only if no touched prefix clashes with another base file or is claimed by a listed peer |
| `MigrationCheck.OpenPeers` | scripts/ops/check_migration_collisions.py:166-214 | the matches are exactly the numbers of the listed pull requests, other than this one, with a file under the prefix |
| `MigrationCheck.BaseCollisions` | scripts/ops/check_migration_collisions.py:241-269 | a prefix collides exactly when the base has it and the pull request brings another name under it |
| `MigrationCheck.PrefixIff` | scripts/ops/check_migration_collisions.py:46-46 | a name carries a number exactly when it is digits, underscore, slash-free stem and an up or down suffix |
| `MigrationCheck.ShapeHasPrefix` | scripts/ops/check_migration_collisions.py:131-141 | the number is the one the leading digits spell |
| `MigrationCheck.CollectPrefixes` | scripts/ops/check_migration_collisions.py:120-163 | the numbers of the migration files among the names |
| `MigrationProtocol.ScriptDecidesPass` | scripts/ops/check_migration_collisions.py:234-280 | with complete listings the script passes exactly when the protocol's pass condition holds |
| `MigrationProtocol.ScriptDecidesIff` | scripts/ops/check_migration_collisions.py:176-280 | with listings that show only what is so, the protocol's pass condition holds exactly when the script passes and no listing hides a pull request sharing a number |
| `MigrationProtocol.MergeSafe` | scripts/ops/check_migration_collisions.py:241-280 | in every run in which no check slips, no merge adds a new file under a prefix already on the base |
| `MigrationProtocol.NumberIntroducedOnce` | scripts/ops/check_migration_collisions.py:5-16 | over such a run each migration number is introduced by at most one merge |
| `MigrationProtocol.BaseMeaning` | scripts/ops/check_migration_collisions.py:5-16 | the base holds exactly what it started with and what the merges introduced |
| `MigrationProtocol.OpenMeaning` | scripts/ops/check_migration_collisions.py:234-293 | a pull request stands as the last event about it left it, passed exactly by the script's verdict |
| `MigrationProtocol.RunKeepsInv` | scripts/ops/check_migration_collisions.py:241-280 | without a slip live passes stay prefix-disjoint and clash-free in every reachable state |
| `MigrationProtocol.InvIff` | scripts/ops/check_migration_collisions.py:234-293 | over every run of the script's own verdicts, live passes are prefix-disjoint and clash-free at every moment if and only if no check passes while its listings hide a live pass sharing a number |
| `MigrationProtocol.CheckIff` | scripts/ops/check_migration_collisions.py:234-280 | one check keeps live passes apart exactly when it does not slip |
| `MigrationProtocol.CompleteNeverSlips` | scripts/ops/check_migration_collisions.py:166-214 | with complete listings no check slips |
| `MigrationProtocol.BlindChecksBothPass` | scripts/ops/check_migration_collisions.py:176-184 | without a listing two pull requests sharing a number both pass |
| `MigrationProtocol.BlindMergesCollide` | scripts/ops/check_migration_collisions.py:176-184 | for any two files of one number, the run that opens, checks without listings and merges both introduces the number twice |
| `MergeGuard.Guard` | tools/merge_commit_guard.py:124-199 | exit 0 if and only if every commit brought in, the tip for a new branch, that has two parents and a known pull request has that one's head fetched and reachable from the tip |
| `MergeGuard.NothingDropped` | tools/merge_commit_guard.py:139-192 | along any chain of passing fast-forwards each new merge commit's fetched head is reachable from the final tip |
| `GateCheck.LatestByContext` | tools/gate-check-v3/gate_check.py:712-722 | each context gets its highest-id status, the gate's own contexts none |
| `GateCheck.OwnIff` | tools/gate-check-v3/gate_check.py:714-716 | the gate's own contexts are exactly those that name it, letters in any case |
| `GateCheck.GovernanceNotOwn` | tools/gate-check-v3/gate_check.py:714-735 | no governance context is the gate's own |
| `GateCheck.NoState` | tools/gate-check-v3/gate_check.py:712-739 | a context that is the gate's own or has no status is in no state |
| `GateCheck.SignalCi` | tools/gate-check-v3/gate_check.py:724-764 | failing are exactly the required contexts in failure, pending those neither failed, successful nor neutral, governance always required, and they decide the verdict |
| `GateCheck.HighestIdWins` | tools/gate-check-v3/gate_check.py:709-719 | the highest-id status decides wherever it stands in the list |
| `GateCheck.StatusOrderIrrelevant` | tools/gate-check-v3/gate_check.py:709-722 | with distinct ids per context the order of statuses does not matter |
| `GateCheck.ComputeVerdict` | tools/gate-check-v3/gate_check.py:783-793 | the first verdict of the table that some gate has, and exactly the blocked, failed, stale or erring gates as blockers |
| `GateCheck.Run` | tools/gate-check-v3/gate_check.py:904-980 | exit 2 if and only if an API call or a gate erred; non-zero if and only if that, a failing required context, or a blocked, failed or stale verdict, in any order |
| `GateCheck.PendingExitsZero` | tools/gate-check-v3/gate_check.py:973-980 | with one required context, pending, the gate exits 0 |
| `GateCheck.FailureBlocks` | tools/gate-check-v3/gate_check.py:712-764 | a required context whose highest-id status failed is a failing required context; a governance one whatever the branch protection |
| `GateCheck.CommitsBehind` | tools/gate-check-v3/gate_check.py:320-357 | below index 1000 the paged walk returns the base's exact index and the files before it; nothing if a page failed first; else the stretch walked |
| `GateCheck.BehindExact` | tools/gate-check-v3/gate_check.py:329-357 | a base within the newest 1000 commits is found at its index, with exactly the non-empty file names of the commits before it |
| `GateCheck.BehindMissing` | tools/gate-check-v3/gate_check.py:329-357 | a base not in the history gives the stretch walked, up to 1000; nothing when the history is empty or a page asked for fails |
| `Multipart.ParseMultipart` | canvas/e2e/fixtures/echo-runtime.ts:55-94 | the loop ends on every input and returns what the scan finds |
| `Multipart.RoundTrip` | canvas/e2e/fixtures/echo-runtime.ts:55-94 | the serialised form of any parts behind any preamble without two dashes gives back the first file part with its exact bytes, or nothing |
| `MultipartPreamble.SurvivesIff` | canvas/e2e/fixtures/echo-runtime.ts:56-63 | for any expressions that find a file under some one-line header, every message survives a preamble if and only if the parser's first search finds nothing in it |
| `MultipartPreamble.ParserSurvivesIff` | canvas/e2e/fixtures/echo-runtime.ts:55-94 | the same, without hypotheses, for the parser's own file name expression |
| `MultipartPreamble.DashedLoses` | canvas/e2e/fixtures/echo-runtime.ts:56-63 | behind any preamble with two dashes a well-formed message of one file, its content a delimiter under another boundary, does not give that file back |
| `MultipartPreamble.DashedLineLoses` | canvas/e2e/fixtures/echo-runtime.ts:56-63 | the preamble line `a--b` is such a preamble for the parser's own expression |
| `MultipartPreamble.NeverTheMarker` | canvas/e2e/fixtures/echo-runtime.ts:66-87 | no content the loop returns is the delimiter it looks for |
| `Disposition.FileNameIff` | canvas/e2e/fixtures/echo-runtime.ts:73-75 | a name is found exactly when field, parameter and quoted text match on the part, and it is that of the first matching field and its last parameter |
| `Disposition.HeaderNamesIff` | canvas/e2e/fixtures/echo-runtime.ts:73-75 | for every one-line header of field, text, parameter and quoted name, letters in any case, the name found is that name, unless it ends in `filename=` and the content holds a quote |
| `Disposition.FileHeaderNames` | canvas/e2e/fixtures/echo-runtime.ts:73-75 | the header browsers send names its file whatever the content |
| `Multipart.DelimiterFirst` | canvas/e2e/fixtures/echo-runtime.ts:63-70 | no delimiter is found inside a part, not even one running into the real delimiter |
| `Multipart.HeaderEnds` | canvas/e2e/fixtures/echo-runtime.ts:77-84 | the first blank line of a part ends its header, so the rest is the content |
| `ProviderCatalog.BuildProviderCatalog` | canvas/src/components/ProviderModelSelector.tsx:253-294 | one entry per key in first-seen order, holding that key's models in input order |
| `ProviderCatalog.EntryAt` | canvas/src/components/ProviderModelSelector.tsx:262-294 | each entry field by field: models of its key, vendor and credentials of the first, wildcard exactly if some id holds a star, and the count of two or more concrete models |
| `ProviderCatalog.Partition` | canvas/src/components/ProviderModelSelector.tsx:256-282 | every model is in one entry and no other, and the entries hold as many models as were given |
| `ProviderCatalog.KeyIff` | canvas/src/components/ProviderModelSelector.tsx:257-260 | without pipes keys agree exactly for equal vendors and permuted credentials, the two blank lists apart |
| `ProviderCatalog.KeyIffPieces` | canvas/src/components/ProviderModelSelector.tsx:257-260 | whatever the names hold, keys agree exactly when the pieces between pipes of vendor and sorted credentials agree |
| `ProviderCatalog.CatalogExact` | canvas/src/components/ProviderModelSelector.tsx:250-294 | the entries are exactly the vendor and credential classes if and only if equal pieces come only from equal classes |
| `ProviderCatalog.ShareIffKey` | canvas/src/components/ProviderModelSelector.tsx:256-282 | two models share an entry exactly when their keys agree |
| `ProviderCatalog.ShareIff` | canvas/src/components/ProviderModelSelector.tsx:250-294 | without pipes two models share an entry exactly when vendor and credentials agree, the two blank lists apart |
| `ProviderCatalog.PipeMergesVendors` | canvas/src/components/ProviderModelSelector.tsx:258-260 | vendor `a` + pipe + `b` with credential `c` and vendor `a` with `b` and `c` get one key, for all such names |
| `ProviderCatalog.PipeMergesCredentials` | canvas/src/components/ProviderModelSelector.tsx:258-260 | under one vendor the credential `b` + pipe + `c` and the two credentials `b` and `c` get one key |
| `ProviderCatalog.FindsFirst` | canvas/src/components/ProviderModelSelector.tsx:357-376 | the search returns the first entry that holds the id |
| `ProviderCatalog.BackDerivation` | canvas/src/components/ProviderModelSelector.tsx:357-376 | in a built catalogue an id is found exactly when some model given is it or a trailing-star prefix of it, and the entry found has such a model |

## Left out

- React rendering, styling, labels of edges and toasts: no state is decided there.
- Network, git and clock access: their answers are parameters (`World`, `api`, clock readings), arbitrary except where a contract names what it needs of them.
- `Date` parsing and `localeCompare`: timestamps are integers in the order the code sorts them.
- Admission of socket events by visibility, type and online status in the two overlays: an event in the model is one that was admitted.
- The vendor inference, its label table and `provisionTimeoutForRuntime`: arbitrary functions in the model, so the theorems hold for every choice.
- The content type expression of the multipart parser: an arbitrary function; the file name expression is a parameter of `Multipart` and given in `Disposition`, and as in the code it searches the whole part, body included.
- Multipart parts without any header line: form-data parts always have one.
- How numbers are printed and parsed in the packed string: any format that reads back what it wrote without separators; non-finite timeouts do not occur.
- ProviderCatalog.KeyIff: for names without a pipe; `ProviderCatalog.KeyIffPieces` is the statement for all names.
- ProviderCatalog.ShareIff: for names without a pipe; `ProviderCatalog.ShareIffKey` and `ProviderCatalog.CatalogExact` are the statements for all names.
- GateCheck.OwnIff: letters are folded in ASCII; Python also folds other letters, which no context uses.
- MigrationCheck.PrefixIff: the digits are the ten ASCII digits; the script's expression also accepts other decimal digits of Unicode, which migration names do not use.
- Deletions and renames of migration files: a pull request is the set of files it adds or modifies, and the base only grows.
- The path and page limits of the pull-request listing: what they cut off is what `MigrationProtocol.ScriptDecidesIff` calls hidden.
- The parsing of pull request numbers from commit messages: the number is part of the commit.
- The other gates of the gate check (comments, reviews, staleness, divergence thresholds, destructive diff): only their verdicts enter the fold.
- Skipping the gate for pull requests that do not target the default branch: a single branch before the modelled part.
- Unmounting of components, retry cooldowns and cancel confirmation: they change nothing that is modelled.
- The registry-backed catalogue: the same grouping with the provider name as key.
- The Go workspace server: not part of this model.
