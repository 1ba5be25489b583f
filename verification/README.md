# Game server control: model and proofs

The control plane keeps everything about the dedicated game servers in memory: which servers are
registered and which rooms they have reserved, which sessions and one-time tickets exist, which
processes were launched, which launches are pending, and which client connections are in which room.
This project models these parts as classes over maps that are edited in place, as the JavaScript is,
and proves what they keep over every run.

Each class method is proved to turn the old state into the value of a specification function, and the
main results are about these functions: about all states, or about every sequence of operations from the
empty state.

| files | component |
|---|---|
| `Common`, `JsMaps`, `Texts` | integer clamping, the insertion-ordered `Map`, string operations |
| `RateLimiter`, `RateLimiterProofs`, `RateLimiterAnswers` | the fixed-window limiter against one that never deletes a bucket |
| `Manifest`, `ManifestProofs` | the process manifest: queries and compaction |
| `ProcessLifecycle`, `ProcessLifecycleProofs`, `TickEffects`, `SignalProofs` | the cleanup tick: idle and orphan shutdown |
| `ServerRecord`, `ServerRegistry`, `ServerRegistryRuns`, `RegistryEffects`, `RoomCleanup` | reservations, derived capacity, what each operation changes |
| `Allocator`, `AllocatorProofs`, `TicketPlacement` | the choice of a server, and that it is honoured |
| `Sessions`, `SessionRuns`, `SessionEffects`, `DedicatedReports`, `ControlStatus` | sessions, reports of servers, the status sweep |
| `Tickets`, `TicketAdmission` | tickets and joining with one |
| `AutoLaunch`, `AutoLaunchRuns` | launches as start, exit and settle steps |
| `RoomManager`, `ClientsRegistry` | the two-way indexes of the realtime layer |
| `Base64Url`, `ServiceToken` | the service token |

Conventions. Time is a parameter of every operation. Ids are trimmed texts, and an empty text stands for
a missing one. A request field is missing, unparsable or an integer. Health, liveness of processes, open
sockets, answers of sockets, the keyed hash, JSON and the locale order of ids are parameters; the proofs
assume of them only what a lemma's `requires` says: that the locale order is irreflexive and transitive, that
JSON reads back what it printed, that a signature is hexadecimal text. The order in which a `Map` or `Set` lists
its keys is kept where a result depends on it, and is a parameter in the realtime layer.

## What the code does not keep

Where a plausible law fails, the exact condition is proved.

- An assignment whose size does not parse passes the capacity check as 0 and is stored as 1, so it can
  over-commit a full server by one (`AssignWorsensExactlyWhen`, `UnparsableSizeOverCommits`).
- The pruning of the limiter becomes visible as soon as more than `maxBuckets` buckets are live
  (`PruningIsInvisibleExactlyWhenFewLive`, `FloodIsNoticed`).
- The order of the registry decides between servers tied for best whose ids compare equal, as differently
  composed texts do under `localeCompare` (`AllocationIgnoresOrderExactlyWhen`, `TiedServersFollowTheOrder`).
- A join takes the session that the request names without comparing its room or server with the ticket
  (`JoinSeatsExactly`, `JoinReachesOtherRoom`).
- The server limit is exceeded by servers that register after their launch was settled
  (`LimitBrokenExactlyWhen`, `LateServerExceedsLimit`).
- The unrestricted status update can reopen a session that is no longer indexed or was ended
  (`StatusUpdateKeepsInvariantExactlyWhen`, `ReopenedSessionIsNotGood`).
- A departure report that finds its user in no session of the reported server falls back on the session it
  names, without comparing servers (`ReportRemovesExactly`, `ReportReachesOtherServer`).
- The default lifetime of a token is not clamped when it does not parse, so with a small limit the service
  creates tokens it never accepts (`CreatedTokenAcceptedExactly`, `FallbackLifetimeCanExceedTheLimit`).
- Base64url text with unused bits set, or with a lone digit at the end, is read without complaint
  (`EncodeDecode`, `UnusedBitsAreIgnored`).
- An idle shutdown need not follow a period without players. The empty-since clock is only reset by a tick that
  lists the server and finds its launch, and the launch is looked up by the room that the server reports: while
  a heartbeat names another room, or while the server is unregistered, the clock runs on
  (`IdleShutdownExactlyWhen`, `ClockOutlivesUseExactlyWhen`, `UnlistedKeepsClock`, `MissedLaunchLetsTheClockRun`).
- A process can be signalled twice. An idle shutdown is logged under the room that the server reports, so with an
  empty report the orphan route does not find it finished (`LoggedUnderTargetExactlyWhen`,
  `LaterOrphanSignalNeedsEmptyReport`, `SignalledByBothRoutes`). The orphan pass reads the manifest as it was
  before the idle pass, so with an orphan clock left over both routes signal in one tick
  (`SameTickSignalExactlyWhen`, `SignalledTwiceInOneTick`). The idle route does not ask whether the process was
  finished (`ShutDownTwice`). Where every idle shutdown is free of all three, nobody is signalled twice
  (`NobodyIsSignalledTwice`).
- A claim looks only at the free warm server that has waited longest: when that is too small it fails, although
  another free one is large enough (`ClaimedExactly`, `LongestWaitingIsTooSmall`).
- A heartbeat that leaves out the size makes it 20, and one that leaves out the players makes them none, whatever
  they were (`HeartbeatSetsServer`).
- A ticket can be spent without a seat: it is consumed before the session is looked at, and the session found for
  its room may be closed or full (`JoinedExactlyWhen`, `SpentWithoutSeat`).

## Model

| member | source | states |
|---|---|---|
| `RateLimiterProofs.PruningIsInvisibleExactlyWhenFewLive` | server/src/gameServerControl/handlers/clientGameServerHandler.js:256-311 | after any run that kept to the limit, the pruning limiter answers every key like a limiter that never deletes a bucket if and only if at most maxBuckets buckets are live |
| `RateLimiterProofs.FloodIsNoticed` | server/src/gameServerControl/handlers/clientGameServerHandler.js:256-311 | a run that gets past the limit: maxBuckets + 1 distinct keys at one instant keep to it up to then, and then some key is answered differently |
| `RateLimiterProofs.PruningIsInvisible` | server/src/gameServerControl/handlers/clientGameServerHandler.js:256-311 | over a whole trace with nondecreasing times and at most maxBuckets live buckets, success, remaining, retryAfterMs and resetAt are those of the never-deleting limiter |
| `RateLimiterAnswers.SettingsExactly` | server/src/gameServerControl/handlers/clientGameServerHandler.js:270-283 | the ranges and the defaults of the window, the hits and the buckets |
| `RateLimiterAnswers.PrunedExactly` | server/src/gameServerControl/handlers/clientGameServerHandler.js:256-268 | which buckets pruning keeps: all of a small map, else the live ones that come last, unchanged and in order |
| `RateLimiterAnswers.AnswersExactly` | server/src/gameServerControl/handlers/clientGameServerHandler.js:270-311 | while few buckets are live, a request is admitted if and only if the window in force has seen fewer than maxHits requests of its key, and the answer names what is left, the end of the window and the time until then; all from the requests alone |
| `RateLimiterProofs.AdmissionBound` | server/src/gameServerControl/handlers/clientGameServerHandler.js:270-311 | while at most maxBuckets buckets are live at once, a key is admitted at most (k+1)*maxHits times in any half-open interval of k windows |
| `RateLimiterProofs.SizeBound` | server/src/gameServerControl/handlers/clientGameServerHandler.js:256-311 | no trace makes the map exceed maxBuckets+1 entries |
| `RateLimiter.FixedWindowRateLimiter.Check` | server/src/gameServerControl/handlers/clientGameServerHandler.js:270-311 | one request against the map edited in place: settings clamped, pruned first, an expired bucket replaced, a denied hit not counted |
| `RateLimiter.FixedWindowRateLimiter.Prune` | server/src/gameServerControl/handlers/clientGameServerHandler.js:256-268 | nothing goes while the map is small; otherwise only live buckets stay, at most the maxBuckets whose keys come last in the order of the map, which renewing a bucket does not change |
| `ManifestProofs.CompactionIsSubsequence` | server/src/gameServerControl/index.js:285-345 | the compacted log is a subsequence that ends with the last keepRecent records |
| `ManifestProofs.CompactionKeepsExactly` | server/src/gameServerControl/index.js:285-345 | a log long enough to be compacted keeps, in order, exactly the recent records, the launches of registered servers and running processes, and the records that such a process has ended |
| `ManifestProofs.CompactionKeepsLatestLaunch` | server/src/gameServerControl/index.js:285-345 | every registered server finds the same latest launch record as before |
| `ManifestProofs.CompactionKeepsTerminalKeys` | server/src/gameServerControl/index.js:285-345 | whether a launched process that runs or is registered counts as finished is unchanged |
| `ManifestProofs.CompactionIsIdempotent` | server/src/gameServerControl/index.js:285-345 | compacting a compacted log changes nothing |
| `Manifest.CompactProcessManifestRecords` | server/src/gameServerControl/index.js:285-345 | the three passes over the index sets keep exactly the recent, the protected and the finishing records of protected processes; a log that would not shrink is returned as it is |
| `Manifest.LatestLaunchIsLast` | server/src/gameServerControl/index.js:1134-1147 | the search returns a matching launch after which none matches, or nothing when none does |
| `Manifest.FindLatestLaunchRecord` | server/src/gameServerControl/index.js:1134-1147 | the backward search agrees with that reading of the log |
| `Manifest.BuildTerminalManifestProcessKeys` | server/src/gameServerControl/index.js:1073-1089 | collects the keys of exactly the terminal records |
| `ProcessLifecycleProofs.IdleShutdownNeedsQuietPeriod` | server/src/gameServerControl/index.js:650-721 | for every idle shutdown there is a tick at least idleShutdownMs earlier such that every tick since then that listed the server and found its launch found it alive, empty and without a permanent open session, and none shut it down |
| `ProcessLifecycleProofs.IdleShutdownExactlyWhen` | server/src/gameServerControl/index.js:650-721 | with ordered times, a tick shuts a server down if and only if it can be stopped now and some tick at least idleShutdownMs earlier found it idle, since when no tick that examined it found it otherwise or shut it down |
| `ProcessLifecycleProofs.ClockOutlivesUseExactlyWhen` | server/src/gameServerControl/index.js:668-708 | in any state the empty-since clock of a server that is listed with players or a permanent session keeps running if and only if the manifest holds no launch of the server in the room it reports |
| `ProcessLifecycleProofs.UnlistedKeepsClock` | server/src/gameServerControl/index.js:661-721 | a tick that does not list a server leaves its clock alone, so unregistering and registering again does not stop it |
| `ProcessLifecycleProofs.MissedLaunchLetsTheClockRun` | server/src/gameServerControl/index.js:668-721 | a run in which a server that had players at the tick before is shut down as idle, because that tick found no launch for the room it reported |
| `ProcessLifecycleProofs.ExaminedThroughoutMeansIdleThroughout` | server/src/gameServerControl/index.js:650-721 | where every tick of the quiet period lists the server and finds its launch, every one of them found it alive, empty and without a permanent open session |
| `TickEffects.VerdictExactly` | server/src/gameServerControl/index.js:650-721 | the verdict of a tick on each registered server, from the last launch in the manifest, the running pids, the configuration, the players, the permanence and the empty-since clock alone |
| `TickEffects.DeadServerIsRemoved` | server/src/gameServerControl/index.js:680-688 | a registered server is found dead if and only if the manifest holds a launch of it in the room it reports and the pid of the last one is not running; then its cleanup is logged, its clock deleted and its registration gone |
| `TickEffects.VerdictMovesClock` | server/src/gameServerControl/index.js:668-721 | which verdicts delete, start, keep and ignore the empty-since clock, and which leave the server registered |
| `TickEffects.VerdictIsLogged` | server/src/gameServerControl/index.js:1149-1207 | exactly the records that the idle route logs about each registered server, in order, and that they enter the manifest |
| `TickEffects.OrphanIsLogged` | server/src/gameServerControl/index.js:985-1061 | exactly the records that the orphan route logs about each process: its cleanup when it is dead, the request and the signal when it is due, one request for each of its launches when the signal fails, else nothing |
| `ProcessLifecycleProofs.OrphanSignalsAtMostOnce` | server/src/gameServerControl/index.js:985-1061 | over any run of ticks on the append-only log no process is signalled twice by the orphan route |
| `ProcessLifecycleProofs.OrphanSignalNeedsGracePeriod` | server/src/gameServerControl/index.js:985-1061 | for every orphan signal there is a tick at least the grace period earlier since when the process was alive and its server unregistered at every tick |
| `ProcessLifecycleProofs.OrphanSignalExactlyWhen` | server/src/gameServerControl/index.js:985-1061 | with ordered times and a positive grace period, a tick signals a process by the orphan route if and only if it may be signalled now (launched, not logged as finished, alive, unregistered, open to the signal) and some tick at least the grace period earlier read its launch, since when it was alive and unregistered at every tick |
| `SignalProofs.NobodyIsSignalledTwice` | server/src/gameServerControl/index.js:650-733 | over any run in which every idle shutdown reports the room of its launch and finds its process neither logged as finished nor with an orphan clock that has run out, no process is signalled twice, by one route or by both |
| `SignalProofs.LoggedUnderTargetExactlyWhen` | server/src/gameServerControl/index.js:1168-1207 | an idle shutdown is logged under the key of the process it signals if and only if it is not the case that the server reports no room and the launch names one |
| `SignalProofs.LaterOrphanSignalNeedsEmptyReport` | server/src/gameServerControl/index.js:985-1061 | over any run a process that was shut down as idle is signalled by the orphan route at a later tick only if that shutdown reported no room and the launch names one |
| `SignalProofs.SameTickSignalExactlyWhen` | server/src/gameServerControl/index.js:650-733 | the process of an idle shutdown is signalled by the orphan route in the same tick if and only if that route is enabled, the process is not logged as finished and its orphan clock has run out |
| `SignalProofs.SignalledByBothRoutes` | server/src/gameServerControl/index.js:985-1061 | a run of three ticks in which a server registered without a room is shut down as idle and its process signalled again as an orphan |
| `SignalProofs.SignalledTwiceInOneTick` | server/src/gameServerControl/index.js:650-733 | a run of three ticks, the second without the server, in which the last tick signals the process by both routes |
| `SignalProofs.ShutDownTwice` | server/src/gameServerControl/index.js:668-718 | a run of four ticks in which the idle route signals one process twice, its server having registered again |
| `ProcessLifecycleProofs.IdlePassOnCompacted` | server/src/gameServerControl/index.js:255-345 | a later idle pass gives every server that was registered at the compaction, or launched since, the same verdict and the same clocks on the compacted log |
| `ProcessLifecycleProofs.OrphanSignalsOnCompacted` | server/src/gameServerControl/index.js:255-345 | a later orphan pass, with other servers registered and other processes alive than at the compaction, signals the same processes in the same order, for the orphans whose launches the compaction protected |
| `ProcessLifecycle.GameServerControl.CleanupDedicatedServerProcesses` | server/src/gameServerControl/index.js:650-733 | a whole tick: idle pass, resource-limit effect, orphan pass, all on the records read at its start; the compaction that ends it changes nothing, since its write always fails |
| `ProcessLifecycle.GameServerControl.CleanupIdleServer` | server/src/gameServerControl/index.js:668-718 | the verdict on one server, what it does to the empty-since clock and what it logs |
| `ProcessLifecycle.GameServerControl.CleanupOrphanProcessesFromManifest` | server/src/gameServerControl/index.js:985-1061 | newest record first: who is signalled, which clocks run, what is logged |
| `RegistryEffects.CountsChangeExactly` | server/src/gameServerControl/registry/gameServerRegistry.js:264-517 | after any operation the size, the players and the status of every registered server: who may change them, how counts are cut, and which status is listed |
| `RegistryEffects.StatusIsAlwaysTrue` | server/src/gameServerControl/registry/gameServerRegistry.js:264-281 | over every run a warm server is empty and a starting, online or busy one has a free seat |
| `RegistryEffects.RoomsChangeExactly` | server/src/gameServerControl/registry/gameServerRegistry.js:284-752 | after any operation but a cleanup the size reserved for a room: what a registration brings, an assignment that fits or a claim sets, else as before |
| `RegistryEffects.PlaceChangesExactly` | server/src/gameServerControl/registry/gameServerRegistry.js:436-752 | after any operation but a cleanup the region, zone, room and room list of a server, and when it was last changed |
| `RegistryEffects.RegisteredExactly` | server/src/gameServerControl/registry/gameServerRegistry.js:284-370 | a registration succeeds exactly when it is in order; its record is new in every field but the reservations made before, and no other server is touched |
| `RegistryEffects.FitsExactly` | server/src/gameServerControl/registry/gameServerRegistry.js:663-752 | an assignment succeeds if and only if server and room are named and known and its size, none when that does not parse, is free or already held by the room |
| `RegistryEffects.ClaimedExactly` | server/src/gameServerControl/registry/gameServerRegistry.js:572-660 | a claim succeeds if and only if it names a room and the free server that has waited longest, the first listed when several have, is large enough, and takes that server |
| `RegistryEffects.LongestWaitingIsTooSmall` | server/src/gameServerControl/registry/gameServerRegistry.js:572-660 | a run in which a claim fails on the longest waiting server although another free one is large enough |
| `ServerRegistryRuns.DerivedCapacityAlwaysHolds` | server/src/gameServerControl/registry/gameServerRegistry.js:103-111 | in every reachable state the free slots of each server are max(0, maxPlayers minus the plain sum of its room sizes), and counts and sizes are in range |
| `ServerRecord.FreeSlotsAgree` | server/src/gameServerControl/registry/gameServerRegistry.js:958-967 | summing rooms clamped to the server, as the cleanup does, and summing rooms clamped only to 1024 leave the same free slots |
| `ServerRegistryRuns.AssignWorsensExactlyWhen` | server/src/gameServerControl/registry/gameServerRegistry.js:663-752 | a successful assignment increases the over-commitment of its server if and only if the size does not parse, the room is new to the server and no slot is free; with a parsable size it never does |
| `ServerRegistryRuns.UnparsableSizeOverCommits` | server/src/gameServerControl/registry/gameServerRegistry.js:663-752 | registered for one player with that slot reserved, a server takes a second room whose size does not parse |
| `ServerRegistryRuns.ClaimNeverOverCommits` | server/src/gameServerControl/registry/gameServerRegistry.js:572-660 | a claimed server holds just the claimed room, within its capacity, whatever the size field was |
| `ServerRegistryRuns.ReservationsNeverWorsen` | server/src/gameServerControl/registry/gameServerRegistry.js:572-752 | over any stretch of claims and assignments with parsable sizes no server gets more over-committed, even when a heartbeat had shrunk it before |
| `ServerRegistryRuns.ReservationsAreDurable` | server/src/gameServerControl/registry/gameServerRegistry.js:342-752 | a reserved room stays on its server through every register, heartbeat, status, count, assign, claim and reading of the statistics |
| `ServerRegistryRuns.ClaimsAreExclusive` | server/src/gameServerControl/registry/gameServerRegistry.js:572-660 | between two claims of one server there is a cleanup, an unregistration or a clear |
| `ServerRegistry.PickWarm` | server/src/gameServerControl/registry/gameServerRegistry.js:555-625 | the server a claim takes is warm, empty, without a room and as asked for, and none like it has waited longer; nothing is found only if there is none |
| `ServerRecord.PrimaryRoomInOrder` | server/src/gameServerControl/registry/gameServerRegistry.js:229-261 | the primary room of a list is the current room when that is listed, else the first one marked primary, else the first one with players, else the first |
| `ServerRegistry.GameServerRegistry.RegisterServer` | server/src/gameServerControl/registry/gameServerRegistry.js:342-370 | refuses a missing id, a bad port and bad capacities; registering again keeps the reservations made before |
| `ServerRegistry.GameServerRegistry.UpdateHeartbeat` | server/src/gameServerControl/registry/gameServerRegistry.js:436-516 | the record after a heartbeat: counts cut to the old and then the new capacity, claim status kept, primary room chosen, capacity derived again |
| `ServerRegistry.GameServerRegistry.ClaimWarmServerForRoom` | server/src/gameServerControl/registry/gameServerRegistry.js:572-660 | reply and new registry of a claim; a failed claim changes nothing |
| `ServerRegistry.GameServerRegistry.AssignRoomToServer` | server/src/gameServerControl/registry/gameServerRegistry.js:663-752 | reply and new registry of an assignment; a refusal for lack of slots still derives the capacity again |
| `ServerRegistry.GameServerRegistry.RecomputeServerReservedCapacity` | server/src/gameServerControl/registry/gameServerRegistry.js:103-111 | the derived fields follow from the clamped room sizes |
| `ServerRegistry.GameServerRegistry.CleanupEmptyRoomReservations` | server/src/gameServerControl/registry/gameServerRegistry.js:881-1002 | the whole sweep: every server loses exactly its empty rooms, in one pass over the map |
| `ServerRegistry.GameServerRegistry.UpdatePlayerCount` | server/src/gameServerControl/registry/gameServerRegistry.js:407-418 | count cut to the capacity and status resolved from it |
| `ServerRegistry.GameServerRegistry.UpdateServerStatus` | server/src/gameServerControl/registry/gameServerRegistry.js:395-405 | status resolved against the counts; an unknown server changes nothing |
| `ServerRegistry.GameServerRegistry.MarkServer` | server/src/gameServerControl/registry/gameServerRegistry.js:519-541 | offline and unhealthy are set unresolved |
| `ServerRegistry.GameServerRegistry.UnregisterServer` | server/src/gameServerControl/registry/gameServerRegistry.js:389-393 | exactly this server goes |
| `RoomCleanup.CleanupKeepsExactly` | server/src/gameServerControl/registry/gameServerRegistry.js:881-1002 | a reservation survives a sweep if and only if its room is active or its last heartbeat entry reports players |
| `RoomCleanup.CleanupOnlyRemoves` | server/src/gameServerControl/registry/gameServerRegistry.js:881-1002 | a sweep adds no reservation and changes no size, capacity, count or status |
| `RoomCleanup.ListedRoomsExactly` | server/src/gameServerControl/registry/gameServerRegistry.js:178-185 | the rooms a server lists: those of its last heartbeat, or else of its registration |
| `RoomCleanup.KnownExactly` | server/src/gameServerControl/registry/gameServerRegistry.js:881-1002 | a room is known to the cleanup by its last entry in the list of the server, or as an empty one when it is only reserved |
| `RoomCleanup.CleanupListsExactly` | server/src/gameServerControl/registry/gameServerRegistry.js:881-1002 | a cleanup that finds no empty room leaves the record as it is; else it dates it, lists the rooms that stay as they were known, and elects the primary one among them |
| `RoomCleanup.CleanupElectsOnePrimary` | server/src/gameServerControl/registry/gameServerRegistry.js:229-261 | a server that loses a room and still lists one ends with exactly one primary room, equal to its roomId |
| `ControlStatus.StatusFreesExactlyTheEmptyRooms` | server/src/gameServerControl/index.js:1322-1347 | in every reachable state of both registries a status call keeps a reserved room if and only if it has an open session or reports players; sizes that stay are unchanged, no server is lost, and the reserved players of every server are the plain sum of its room sizes again |
| `ControlStatus.GameServerControl.GetStatus` | server/src/gameServerControl/index.js:1322-1347 | sweeps with the rooms the session statistics count as creating or active, then reads the registry statistics, which derive the capacity of every record again |
| `ServerRegistry.GameServerRegistry.GetStats` | server/src/gameServerControl/registry/gameServerRegistry.js:790-877 | derives the capacity of every record again and sums players, capacity, reserved players and free slots over all servers |
| `RegistryEffects.TotalsAreSums` | server/src/gameServerControl/registry/gameServerRegistry.js:790-877 | the totals add up over the servers, each counted once with its players, size, reserved players and free slots |
| `ServerRegistryRuns.RefreshedGood` | server/src/gameServerControl/registry/gameServerRegistry.js:790-877 | reading the statistics keeps the registry invariant and every record's rooms, and makes the reserved players the plain sum of the room sizes |
| `AllocatorProofs.ValidatesExactly` | server/src/gameServerControl/allocation/gameServerAllocator.js:244-375 | a server validates if and only if its status is allowed, it has the slots, it is not held for another room, it is in the place, and it is healthy or warning where that is asked for and health is kept |
| `AllocatorProofs.AllocationIsBest` | server/src/gameServerControl/allocation/gameServerAllocator.js:161-241 | without a usable preferred server, allocation fails exactly when no registered server validates; otherwise nothing in the running is better than its server, which beats every other one when the locale order tells the registered ids apart |
| `AllocatorProofs.AllocationIgnoresOrder` | server/src/gameServerControl/allocation/gameServerAllocator.js:161-204 | where the locale order tells the registered ids apart, listing the registry in another order never changes the answer |
| `AllocatorProofs.AllocationIgnoresOrderExactlyWhen` | server/src/gameServerControl/allocation/gameServerAllocator.js:161-204 | every order of the registry gives the same answer if and only if no two servers in the running are tied for best in score, waste, reserved players and ids that compare equal |
| `AllocatorProofs.TiedServersFollowTheOrder` | server/src/gameServerControl/allocation/gameServerAllocator.js:161-204 | of two servers alike but for ids that compare equal, the one that registered first is chosen |
| `AllocatorProofs.AllocationIsBestFit` | server/src/gameServerControl/allocation/gameServerAllocator.js:311-345 | among servers of the same size, place and health none in the running would waste fewer slots than the chosen one |
| `AllocatorProofs.ScoreRewards` | server/src/gameServerControl/allocation/gameServerAllocator.js:311-345 | moving into the requested region or zone earns exactly its weight; no waste earns the whole capacity weight and a wasted server none |
| `AllocatorProofs.PlaceAddsExactly` | server/src/gameServerControl/allocation/gameServerAllocator.js:311-346 | what the place adds to the score: the weights of the region and the zone where they are asked for and met |
| `AllocatorProofs.HealthAddsExactly` | server/src/gameServerControl/allocation/gameServerAllocator.js:311-346 | what health adds to the score: the whole weight, also where it is not known, half of it rounded half up for a warning, or nothing |
| `AllocatorProofs.ScoreWithinWeights` | server/src/gameServerControl/allocation/gameServerAllocator.js:311-345 | no server scores below zero or above all the weights together |
| `TicketPlacement.AllocatedServerIsSuitable` | server/src/gameServerControl/allocation/gameServerAllocator.js:244-375 | a ticket is allocated a server if and only if some registered server runs, has the slots, is in the place, is not held for another room and is healthy or warning where health is kept; the one allocated is such a server, and a preferred one is taken when it is |
| `TicketPlacement.WarmServerIsSuitable` | server/src/gameServerControl/allocation/gameServerAllocator.js:244-375 | the same for the allocation that looks for a warm server |
| `TicketPlacement.PlacedExactly` | server/src/gameServerControl/handlers/clientGameServerHandler.js:436-502 | in every reachable state a validated ticket is placed on the server allocated when there is one, else on the warm server allocated when that can be claimed, with the size asked for and every other server untouched; else it is placed nowhere and nothing changes; after a launch, on the server allocated or nowhere |
| `TicketPlacement.RejectedExactly` | server/src/gameServerControl/handlers/clientGameServerHandler.js:436-456 | a request is rejected, and nothing touched, if and only if it lacks a user, a room or a size within 1 and 1024 |
| `TicketPlacement.AllocationsAreHonoured` | server/src/gameServerControl/handlers/clientGameServerHandler.js:436-502 | in every reachable registry state the reservation after a successful allocation or warm claim of a validated request, and after the second allocation that follows a launch, succeeds, stores the requested size and leaves its server no more over-committed |
| `TicketPlacement.ClientGameServerHandler.RequestPlacement` | server/src/gameServerControl/handlers/clientGameServerHandler.js:457-481 | the first turn over the shared registry: validate, allocate, else claim a warm server, then reserve |
| `TicketPlacement.ClientGameServerHandler.RetryPlacement` | server/src/gameServerControl/handlers/clientGameServerHandler.js:483-502 | the turn after a launch: allocate once more, then reserve |
| `SessionRuns.SessionInvariantAlwaysHolds` | server/src/gameServerControl/sessions/gameSessionRegistry.js:116-372 | over every run with fresh ids open sessions are the indexed ones of their rooms, index entries do not dangle, no session is over capacity, open sessions have no closing time |
| `SessionRuns.OneOpenSessionPerRoom` | server/src/gameServerControl/sessions/gameSessionRegistry.js:116-164 | a room has at most one open session, it is the one found for the room, and no sweep at any time takes it |
| `SessionRuns.GetOrCreateNeverThrows` | server/src/gameServerControl/sessions/gameSessionRegistry.js:138-146 | a valid request always gets the open session of its room or a new one, and it is then found for the room |
| `SessionRuns.StatusUpdateKeepsInvariantExactlyWhen` | server/src/gameServerControl/sessions/gameSessionRegistry.js:305-326 | the unrestricted status update keeps the invariant if and only if it opens no session, or one that is indexed for its room and was never ended |
| `SessionRuns.ReopenedSessionIsNotGood` | server/src/gameServerControl/sessions/gameSessionRegistry.js:305-326 | a closed session set active again is open with a closing time, so the invariant is lost |
| `SessionRuns.LeaveAcceptedExactly` | server/src/gameServerControl/sessions/gameSessionRegistry.js:374-449 | a report is accepted if and only if it names a server and a user and is not a late report of a replaced connection without a connection id; such a late report changes nothing and succeeds |
| `SessionEffects.SeatsChangeExactly` | server/src/gameServerControl/sessions/gameSessionRegistry.js:116-644 | after any operation a session is still there unless it was deleted, expired or cleared away, and a user has a seat in it if and only if the operation gave one, or the user had one and was not taken out |
| `SessionEffects.SeatHasItsGrant` | server/src/gameServerControl/sessions/gameSessionRegistry.js:183-564 | over every run each seat goes back to the operation that gave it, since when nothing took it |
| `SessionEffects.SeatsStay` | server/src/gameServerControl/sessions/gameSessionRegistry.js:183-564 | over every run a seat stays until an operation takes it or removes the session |
| `SessionEffects.StatusChangesExactly` | server/src/gameServerControl/sessions/gameSessionRegistry.js:183-564 | after any operation the status, start and end of a session: ended by closing and failing, active with the first player, ended by the departure that empties a session meant to close; nothing else changes them, and every change is dated |
| `SessionEffects.CreatedExactly` | server/src/gameServerControl/sessions/gameSessionRegistry.js:116-136 | a session is created if and only if the request is in order and no session at all is open in the room; the new session field by field, and the index entry |
| `SessionEffects.GotOrCreatedExactly` | server/src/gameServerControl/sessions/gameSessionRegistry.js:138-146 | the open session of the room when there is one, with nothing changed, else creation |
| `SessionEffects.OnlyCreationAdds` | server/src/gameServerControl/sessions/gameSessionRegistry.js:116-146 | a session that was not there before was created by a request in order in a room without an open session |
| `SessionEffects.IndexChangesExactly` | server/src/gameServerControl/sessions/gameSessionRegistry.js:116-644 | after any operation the index names the session created in the room, or the one it named before unless that was removed |
| `SessionEffects.RepliesExactly` | server/src/gameServerControl/sessions/gameSessionRegistry.js:183-260 | when adding and removing a player succeed, and when a removal is passed over for another connection |
| `SessionEffects.LeaveRepliesExactly` | server/src/gameServerControl/sessions/gameSessionRegistry.js:374-564 | an accepted report succeeds if and only if a session of its server and room has the user and answers to the reported name and connection; a report without server or user fails and counts nobody |
| `SessionEffects.CountedSessionBySession` | server/src/gameServerControl/sessions/gameSessionRegistry.js:419-431 | the players a report counts are the sum over the sessions of its server and room that have not ended |
| `SessionEffects.StatsAreSums` | server/src/gameServerControl/sessions/gameSessionRegistry.js:646-735 | the session statistics add up over the sessions, in total and room by room |
| `SessionEffects.StatsOfOne` | server/src/gameServerControl/sessions/gameSessionRegistry.js:646-735 | an open session counts once in its room, with its players, its size and its status; any other not at all |
| `SessionEffects.StatusUpdatedExactly` | server/src/gameServerControl/sessions/gameSessionRegistry.js:305-326 | the unrestricted update: any status, a start that is kept once set, an end dated anew, and nothing else |
| `SessionRuns.PlayerLeftSpecification` | server/src/gameServerControl/sessions/gameSessionRegistry.js:374-564 | a departure touches only sessions of the server and room, takes only this user and not when another non-empty connection holds the seat, leaves empty non-permanent sessions ended and never ends a permanent one |
| `SessionRuns.PlayerLeftReply` | server/src/gameServerControl/sessions/gameSessionRegistry.js:374-564 | the reported total is the number of seats before, less one for each matching live session that the user leaves |
| `SessionRuns.PlayerLeftTwice` | server/src/gameServerControl/sessions/gameSessionRegistry.js:374-564 | a repeated report changes no player, no status and no closing time |
| `SessionRuns.StatsListOpenRooms` | server/src/gameServerControl/sessions/gameSessionRegistry.js:646-735 | the statistics list exactly the rooms with an open session |
| `Sessions.GameSessionRegistry.CreateSession` | server/src/gameServerControl/sessions/gameSessionRegistry.js:116-136 | throws for a missing room or server, a bad size or an open session in the room; otherwise stores and indexes the new session |
| `Sessions.GameSessionRegistry.GetOrCreateSession` | server/src/gameServerControl/sessions/gameSessionRegistry.js:138-146 | the open session of the room if the index has one, else as creation |
| `Sessions.GameSessionRegistry.AddPlayer` | server/src/gameServerControl/sessions/gameSessionRegistry.js:183-215 | refuses unknown, ended and full sessions, lets a known user back in, activates a session being created |
| `Sessions.GameSessionRegistry.RemovePlayer` | server/src/gameServerControl/sessions/gameSessionRegistry.js:217-260 | keeps a seat bound to another non-empty connection |
| `Sessions.GameSessionRegistry.RemovePlayerFromServer` | server/src/gameServerControl/sessions/gameSessionRegistry.js:374-564 | the loops over the matching sessions leave every session as the departure specification says, and reply with the total left |
| `Sessions.GameSessionRegistry.SyncEmptyServerSessions` | server/src/gameServerControl/sessions/gameSessionRegistry.js:566-617 | exactly the open sessions of the server or room lose their players |
| `Sessions.GameSessionRegistry.CleanupClosedSessions` | server/src/gameServerControl/sessions/gameSessionRegistry.js:619-637 | exactly the sessions whose closing time has run out go, with the index entries that name them |
| `Sessions.GameSessionRegistry.GetStats` | server/src/gameServerControl/sessions/gameSessionRegistry.js:646-735 | the counters over the open sessions, room by room |
| `Sessions.GameSessionRegistry.UpdateSessionStatus` | server/src/gameServerControl/sessions/gameSessionRegistry.js:305-326 | any status from any status; the start and closing times it sets |
| `Sessions.GameSessionRegistry.DeleteSession` | server/src/gameServerControl/sessions/gameSessionRegistry.js:362-372 | the session goes, and the index entry only when it names this session |
| `DedicatedReports.ReportRemovesExactly` | server/src/gameServerControl/handlers/dedicatedServerHandler.js:400-506 | a departure report takes its user out of a session if and only if no other connection holds the seat and the session is of the reported server and room, or none of these has the user and the report names it |
| `DedicatedReports.StaleReportIsIgnored` | server/src/gameServerControl/handlers/dedicatedServerHandler.js:400-506 | a late report of a replaced connection without a connection id leaves every session as it is and only gives the server its player count; every other report that names server and user is accepted |
| `DedicatedReports.ReportedCountExactly` | server/src/gameServerControl/handlers/dedicatedServerHandler.js:400-506 | the player count an accepted report gives its server: of the sessions it is about when the user was found there, else of the session it names when that holds the user, else none |
| `DedicatedReports.CountSetsServer` | server/src/gameServerControl/handlers/dedicatedServerHandler.js:479-485 | the count is cut to the size of the server and its status resolved from it; no other server changes |
| `DedicatedReports.HeartbeatSetsServer` | server/src/gameServerControl/handlers/dedicatedServerHandler.js:114-142 | the size, players and status that a heartbeat gives its server, what it leaves out included: 20 players, none, online |
| `DedicatedReports.ReportReachesOtherServer` | server/src/gameServerControl/handlers/dedicatedServerHandler.js:400-506 | a report of one server takes the user out of a session of another server that it names |
| `DedicatedReports.ReportGood` | server/src/gameServerControl/handlers/dedicatedServerHandler.js:400-506 | a departure report keeps the session invariants |
| `DedicatedReports.EmptyHeartbeatEmptiesExactly` | server/src/gameServerControl/handlers/dedicatedServerHandler.js:268-320 | a heartbeat without players empties exactly the open sessions of its server and room and ends none |
| `DedicatedReports.DedicatedServerHandler.ReportPlayerLeft` | server/src/gameServerControl/handlers/dedicatedServerHandler.js:400-506 | drives the departure, the fallback on the named session and the player count of the server |
| `DedicatedReports.DedicatedServerHandler.HeartbeatDedicatedServer` | server/src/gameServerControl/handlers/dedicatedServerHandler.js:268-320 | drives the heartbeat of the registry and the emptying of sessions |
| `TicketAdmission.AdmissionFollowsLedger` | server/src/gameServerControl/tickets/gameTicketService.js:113-144 | after any interleaving a ticket verifies, and is consumed, if and only if a ledger that forgets nothing admits it: issued, not consumed, revoked or deleted since, unexpired, rightly signed, for this user, room and server |
| `TicketAdmission.OneJoinPerTicket` | server/src/gameServerControl/handlers/dedicatedServerHandler.js:322-397 | two successful joins never use the same ticket |
| `TicketAdmission.JoinHasItsIssue` | server/src/gameServerControl/handlers/dedicatedServerHandler.js:322-397 | every successful join goes back to a successful issue for the same user, room and server, is within the lifetime asked for, 5 to 3600 seconds, and has no revocation in between |
| `TicketAdmission.IssuedTicketLives` | server/src/gameServerControl/tickets/gameTicketService.js:86-111 | an issued ticket is stored unused, for the user, room and server asked for, signed, and expires after the seconds asked for or else configured, cut to 5 and 3600, or the configured ones uncut when what was asked for does not parse |
| `TicketAdmission.IssuedExactlyWhen` | server/src/gameServerControl/tickets/gameTicketService.js:86-111 | a ticket is issued if and only if the secret is configured, the request is complete, the id is new, the ticket is signed and lives at all, and fewer than maxTickets unexpired tickets are stored |
| `TicketAdmission.SavedExactly` | server/src/gameServerControl/tickets/gameTicketStore.js:41-54 | a ticket is saved if and only if it is complete, unexpired and new and there is room; it is stored unused, the expired ones go, the others stay as they are |
| `TicketAdmission.ConsumedExactly` | server/src/gameServerControl/tickets/gameTicketStore.js:74-103 | a ticket is consumed if and only if it is stored, unrevoked, unconsumed and unexpired; an unused expired one is deleted by the attempt, and any other attempt changes nothing |
| `TicketAdmission.RevokedExactly` | server/src/gameServerControl/tickets/gameTicketStore.js:105-116 | exactly this ticket is marked with the time |
| `TicketAdmission.JoinSeatsExactly` | server/src/gameServerControl/handlers/dedicatedServerHandler.js:692-717 | the user is seated in a session of the room and server of the ticket unless, and only unless, the session found, by the id in the request or else by the room, is of another room or server; the room is wrong only when the request names the session |
| `TicketAdmission.JoinedExactlyWhen` | server/src/gameServerControl/handlers/dedicatedServerHandler.js:322-397 | a valid join is seated if and only if its ticket verifies and the session found is missing, or is open and has a free seat or already holds the user; a ticket that verifies is consumed in either case |
| `TicketAdmission.SpentWithoutSeat` | server/src/gameServerControl/handlers/dedicatedServerHandler.js:322-397 | a run in which the session of the room is closed between issue and join, and the admitted ticket is consumed without a seat |
| `TicketAdmission.JoinMakesSession` | server/src/gameServerControl/handlers/dedicatedServerHandler.js:692-717 | a join that finds no session makes one in its room and on its server for 20 players, active and with its user alone; one that finds a session makes none |
| `TicketAdmission.JoinSetsCount` | server/src/gameServerControl/handlers/dedicatedServerHandler.js:384-386 | the server of a successful join gets the players of the session joined, cut to its size, with the status to go with it |
| `TicketAdmission.JoinReachesOtherRoom` | server/src/gameServerControl/handlers/dedicatedServerHandler.js:692-717 | a run in which a ticket for one room and server seats its user in a session of another room on another server |
| `TicketAdmission.SessionsAlwaysGood` | server/src/gameServerControl/handlers/dedicatedServerHandler.js:322-397 | over every run of ticket and session events with fresh session ids the session invariants hold, joins included |
| `TicketAdmission.StoreIsBounded` | server/src/gameServerControl/tickets/gameTicketStore.js:41-54 | the store never exceeds maxTickets |
| `TicketAdmission.DedicatedServerHandler.VerifyGameTicket` | server/src/gameServerControl/handlers/dedicatedServerHandler.js:322-397 | the ticket is spent before the session is resolved and the player added; a successful join gives the server the player count of the session |
| `Tickets.GameTicketService.IssueTicket` | server/src/gameServerControl/tickets/gameTicketService.js:86-111 | lifetime clamped, ticket signed and saved, or refused with the store swept at most |
| `Tickets.GameTicketService.SaveTicket` | server/src/gameServerControl/tickets/gameTicketStore.js:41-54 | sweeps the expired tickets, refuses when full, else stores the ticket unconsumed and unrevoked |
| `Tickets.GameTicketService.ConsumeTicket` | server/src/gameServerControl/tickets/gameTicketStore.js:74-103 | consumes once; refuses revoked, consumed and expired tickets and drops the expired one |
| `Tickets.GameTicketService.RevokeTicket` | server/src/gameServerControl/tickets/gameTicketStore.js:105-116 | marks exactly this ticket |
| `Tickets.GameTicketService.CleanupExpiredTickets` | server/src/gameServerControl/tickets/gameTicketStore.js:124-135 | exactly the expired tickets go, and their number is returned |
| `Tickets.GameTicketService.VerifyAndConsumeTicket` | server/src/gameServerControl/tickets/gameTicketService.js:131-144 | nothing is consumed unless everything verifies |
| `AutoLaunchRuns.AtMostOneLaunchPerRoom` | server/src/gameServerControl/handlers/clientGameServerHandler.js:762-866 | no two unsettled launches are ever for the same room |
| `AutoLaunchRuns.InFlightIsBounded` | server/src/gameServerControl/handlers/clientGameServerHandler.js:1058-1106 | the unsettled launches never exceed maxPendingLaunches |
| `AutoLaunchRuns.ServersStayWithinLimit` | server/src/gameServerControl/handlers/clientGameServerHandler.js:1058-1131 | where servers come only from launches, registered servers and launches under way together exceed maxActiveServers by no more than the number of servers that registered after their launch was settled |
| `AutoLaunchRuns.LimitBrokenExactlyWhen` | server/src/gameServerControl/handlers/clientGameServerHandler.js:1058-1131 | an event takes the servers above the limit if and only if it is such a late registration and the limit was reached |
| `AutoLaunchRuns.LateServerExceedsLimit` | server/src/gameServerControl/handlers/clientGameServerHandler.js:762-784 | a run with a limit of one server in which a late registration makes two |
| `AutoLaunchRuns.StartsExactlyWhen` | server/src/gameServerControl/handlers/clientGameServerHandler.js:762-866 | over any run a request joins the launch under way for its room, or starts one if and only if no server of the room is registered, both limits leave room, every earlier start of the room is the cooldown ago and the limiter admits it |
| `AutoLaunchRuns.StartsAreACooldownApart` | server/src/gameServerControl/handlers/clientGameServerHandler.js:1058-1106 | two starts for one room are at least the cooldown apart |
| `AutoLaunchRuns.StartsAreRateLimited` | server/src/gameServerControl/handlers/clientGameServerHandler.js:1029-1056 | under the same condition on the limiter, at most (k+1)*maxHits launches start against one key in any k rate windows |
| `AutoLaunch.AutoLauncher.EnsureDedicatedServerForRoom` | server/src/gameServerControl/handlers/clientGameServerHandler.js:762-866 | joins the pending launch, is denied with the first objection, or starts one |
| `AutoLaunch.AutoLauncher.CheckSafetyBeforeLaunch` | server/src/gameServerControl/handlers/clientGameServerHandler.js:1058-1106 | the objections in their order, the rate limiter last; only a request that gets that far is counted there |
| `RoomManager.IndexesAlwaysAgree` | server/src/realTime/roomManager.js:62-290 | over every run the two indexes are converse relations, no room but a permanent one is empty, and no permanent room is lost |
| `RoomManager.MembershipChangesExactly` | server/src/realTime/roomManager.js:62-290 | after any operation a connection is in a room if and only if it was and the operation did not take it out, or the operation put it in; both indexes say so |
| `RoomManager.PermanentRoomsStay` | server/src/realTime/roomManager.js:62-151 | a permanent room stays until it is removed by force or everything is cleared |
| `RoomManager.MembersStay` | server/src/realTime/roomManager.js:155-290 | over any run a connection stays in a room until an operation takes it out |
| `RoomManager.PicksExactly` | server/src/realTime/roomManager.js:182-392 | whom a user's leave, a broadcast, a look-up and a count pick out of a room, the excepted connection left aside |
| `RoomManager.FirstHitExactly` | server/src/realTime/roomManager.js:182-209 | the look-up stops at the first open connection of the user that is not excepted, and the closed ones before it go |
| `RoomManager.ExpelTwice` | server/src/realTime/roomManager.js:240-273 | taking connections out of a room one after the other is taking them out at once |
| `RoomManager.RoomManager.Leave` | server/src/realTime/roomManager.js:240-273 | the pair goes from both indexes, and the room with its last member unless permanent |
| `RoomManager.RoomManager.LeaveAll` | server/src/realTime/roomManager.js:276-290 | the connection is in no room afterwards, nothing else changes, and the count is that of its rooms |
| `RoomManager.RoomManager.RemoveRoom` | server/src/realTime/roomManager.js:118-151 | the room is forgotten by all its members; a permanent room only goes by force |
| `RoomManager.RoomManager.GetRoomConnections` | server/src/realTime/roomManager.js:335-351 | returns exactly the members that are left after the closed ones went |
| `RoomManager.RoomManager.GetRoomUserCount` | server/src/realTime/roomManager.js:368-392 | counts each user left in the room once, plus the anonymous connections |
| `RoomManager.RoomManager.Broadcast` | server/src/realTime/roomManager.js:293-318 | takes out the closed members met, counts the open ones that the message reached |
| `RoomManager.RoomManager.LeaveConnectionsByUser` | server/src/realTime/roomManager.js:212-237 | exactly the other connections of the user leave, and are counted |
| `RoomManager.RoomManager.HasUser` | server/src/realTime/roomManager.js:182-209 | true if and only if another open connection of the user is there; exactly the closed connections listed before the first such one go |
| `RoomManager.RoomManager.Join` | server/src/realTime/roomManager.js:156-179 | the pair enters both indexes |
| `RoomManager.RoomManager.RegisterPermanentRoom` | server/src/realTime/roomManager.js:62-91 | the room exists from then on, with the members it had |
| `ClientsRegistry.UserIndexIsAlwaysAScan` | server/src/realTime/clientsRegistry.js:55-252 | over every run the index by user equals a scan of all records |
| `ClientsRegistry.OneUserPerConnection` | server/src/realTime/clientsRegistry.js:55-138 | a connection is listed under the user of its record and under nobody else |
| `ClientsRegistry.RecordChangesExactly` | server/src/realTime/clientsRegistry.js:55-252 | the record of a connection after any operation: adding keeps the time it was first added, touching only dates it, the others keep theirs |
| `ClientsRegistry.DroppedIsWithout` | server/src/realTime/clientsRegistry.js:159-171 | dropping a connection from both maps in place is dropping its record and scanning again |
| `ClientsRegistry.ClientsRegistry.AddConnection` | server/src/realTime/clientsRegistry.js:55-138 | moves a known connection from its previous user to the new one and keeps when it was added |
| `ClientsRegistry.ClientsRegistry.Remove` | server/src/realTime/clientsRegistry.js:141-150 | exactly the connections of the user go |
| `ClientsRegistry.ClientsRegistry.RemoveConnectionById` | server/src/realTime/clientsRegistry.js:159-171 | exactly this connection goes, from both maps |
| `ClientsRegistry.ClientsRegistry.GetFirstConnectionByUserId` | server/src/realTime/clientsRegistry.js:179-192 | the first open connection of the user in the order of the set, or none; exactly the closed ones before it go |
| `ClientsRegistry.ClientsRegistry.GetAll` | server/src/realTime/clientsRegistry.js:195-209 | returns exactly the open connections, which are then all that is listed for the user |
| `ClientsRegistry.ClientsRegistry.GetByConnectionId` | server/src/realTime/clientsRegistry.js:222-228 | the open connection, or nothing and a closed one removed |
| `ClientsRegistry.ClientsRegistry.CleanupClosedConnections` | server/src/realTime/clientsRegistry.js:245-252 | exactly the closed connections go, and are counted |
| `Base64Url.DecodeEncode` | server/src/gameServerControl/security/gameServerServiceToken.js:66-85 | every byte string, of whatever length, is read back from its text |
| `Base64Url.EncodeDecode` | server/src/gameServerControl/security/gameServerServiceToken.js:66-85 | printing what was read gives the text back if and only if it is url-safe, has no lone digit at the end and its unused bits are zero |
| `Base64Url.UnusedBitsAreIgnored` | server/src/gameServerControl/security/gameServerServiceToken.js:76-85 | two texts that differ in unused bits are read as the same byte |
| `Base64Url.PaddingRestored` | server/src/gameServerControl/security/gameServerServiceToken.js:79-84 | reading restores exactly the padding that printing stripped |
| `ServiceToken.ParsePrinted` | server/src/gameServerControl/security/gameServerServiceToken.js:130-154 | a printed payload and signature are parsed back |
| `ServiceToken.PrintParsed` | server/src/gameServerControl/security/gameServerServiceToken.js:130-154 | apart from white space around it, a parsed token is what printing its parts gives |
| `ServiceToken.AcceptedExactlyWhen` | server/src/gameServerControl/security/gameServerServiceToken.js:234-363 | a token is accepted with a payload if and only if the secret is accepted, the token is the printed payload with its own signature, apart from white space around it, and the payload is acceptable now: well formed, in its interval, of a lifetime within the limit, as expected |
| `ServiceToken.CreatedExactlyWhen` | server/src/gameServerControl/security/gameServerServiceToken.js:208-232 | a token is created if and only if the secret is accepted, a server is named and the metadata is not too large |
| `ServiceToken.NewPayloadExactly` | server/src/gameServerControl/security/gameServerServiceToken.js:208-232 | what a new token says: server and purpose trimmed, the lifetime cut to its range or else the default, the rest as given |
| `ServiceToken.SettingsExactly` | server/src/gameServerControl/security/gameServerServiceToken.js:177-206 | the ranges and the defaults of the service's limits |
| `ServiceToken.IdCharactersExactly` | server/src/gameServerControl/security/gameServerServiceToken.js:334-347 | a server id is made of letters, digits, underscores and hyphens |
| `ServiceToken.CreatedTokenAcceptedExactly` | server/src/gameServerControl/security/gameServerServiceToken.js:208-268 | a created token is accepted if and only if its server id is well formed, its lifetime fits the limit, the time is in [issuedAt - skew, expiresAt + skew) and it is for the expected server and purpose; what is accepted is what was put in |
| `ServiceToken.ParsableTtlIsValidForItsInterval` | server/src/gameServerControl/security/gameServerServiceToken.js:208-318 | with a parsable ttl and a well-formed id the token is valid for exactly its interval, skew included |
| `ServiceToken.FallbackLifetimeCanExceedTheLimit` | server/src/gameServerControl/security/gameServerServiceToken.js:179-186 | with a limit of five seconds and no usable ttl anywhere, a token with empty metadata is created and never accepted |
| `ServiceToken.AcceptedTokenIsSigned` | server/src/gameServerControl/security/gameServerServiceToken.js:234-268 | whatever is accepted carries the signature of its own payload, is in its interval and within the longest lifetime, and is for the expected server and purpose |

## Left out

- HTTP, routes, start-up, configuration from the environment, the database, OAuth, voice and the public health page: plumbing around the modelled state.
- Process spawning, signals, `/proc`, port scanning and file writes: inputs of a tick or of a launch; appending to the manifest is taken to succeed.
- The compaction write: it uses `path` without importing it (server/src/gameServerControl/index.js:3, 245), so it always throws before it touches the manifest, and the error is caught (index.js:976-982): the log is append-only. Were it to succeed, it would write a snapshot from before the records that its own tick appends. The selection is modelled by itself.
- `ProcessLifecycle.GameServerControl.CleanupDedicatedServerProcesses`: leaves out the counters and the list of errors in the reply.
- The resource-limit pass of the tick (server/src/gameServerControl/index.js:735-857): only its effect, which servers it removes and what it logs, as an input.
- Closing the sessions of a server whose process is shut down (server/src/gameServerControl/index.js:1218-1231): which servers have a permanent open session is an input of each tick.
- The manifest's process key is a triple; the source joins the three parts with `|`, which is the same as long as no server id or room id contains that character.
- The internals of HMAC, JSON, UTF-8 and the constant-time comparison, and the strength checks of the service secret: parameters and flags.
- `ServiceToken.AcceptedTokenIsSigned`: says that the signature is the keyed hash of the payload, not that it is hard to forge. Times are whole milliseconds.
- `Base64Url.EncodeDecode`: covers text whose characters are Base64 digits; how the platform skips other characters is a parameter of the token parser.
- Ticket rate limiting, connection paths and the session and ticket that a placed ticket request goes on to create (server/src/gameServerControl/handlers/clientGameServerHandler.js:505-588).
- The name and sanitising of rate-limit keys, and the unparsable minimum of an allocation request: keys are arbitrary texts and `minFreeSlots` is an integer.
- `AllocatorProofs.AllocationIsBest`: the sort is modelled as insertion from the left, which any stable sort agrees with when ids that compare equal are interchangeable, as they are for `localeCompare`; the weights are integers and health is a map.
- Names, hosts, ports, tick rates, versions, metadata other than the permanence flags and the heartbeat room list, log text, and lists and counters in replies that no decision depends on.
- `touchPlayer`, `incrementPlayerCount`, `decrementPlayerCount` and the plain look-ups of the registries: they add no state that a result depends on.
- `TicketAdmission.JoinHasItsIssue`: the server registry is not part of the run; the session id of a join is the one that the request names, or else the ticket's metadata.
- The closing time of a session and the last launch time of a room are compared with zero in the source to see whether they are set; the clock is taken to be positive.
- Keys that look like integers come first in a JavaScript object; reserved rooms are kept in insertion order throughout.
- `ServerRegistry.GameServerRegistry.GetStats`: leaves out the counters by status, by region, of assigned rooms and of the rooms in heartbeats.
- `Sessions.GameSessionRegistry.GetStats`: leaves out the counters by server, by region and by status of the whole registry.
- The id and user of a connection are fixed. The source reads them again from the connection object on every call, with the remote address as a last resort, so a leave can meet another id than the join did.
- `connection.context.roomId` and the sending of messages: whether a send succeeded is a parameter of `Broadcast`.
- The contents of a permanent room's definition: only that the room is permanent.
