# Mjolnir mesh: verified models of the merge, allocation, signalling and reconcile logic

A Dafny 4.11 project that models the parts of the Mjolnir router mesh whose correctness is not visible
from one function body, and proves what they promise over every input, every delivery order or every run.
`dafny verify dfyconfig.toml` checks all of it.

| file | part of the system |
|---|---|
| `Basics.dfy`, `Hlc.dfy` | 64-bit arithmetic, text order, the hybrid-clock order used by every merge |
| `LeasedNames.dfy` | the leased-name merge and when nodes converge on one owner |
| `NameIngest.dfy` | claiming names from the local spool: one live name per key |
| `Alloc.dfy` | the hash-started subnet probe and its fallback to smaller sizes |
| `Claims.dfy`, `NetText.dfy` | holding one client subnet claim per node; printed CIDR keys |
| `RateLimit.dfy` | the sliding-window limiter of the signalling server |
| `Rooms.dfy`, `Signalling.dfy`, `SignallingProofs.dfy`, `SignallingReplies.dfy`, `SignallingRuns.dfy` | rooms, message handling, subscriptions and delivery; what every run keeps, and what clients believe after runs that strand members |
| `Liveness.dfy`, `MeshDns.dfy`, `LaneSweep.dfy` | beacon tracking, the DNS tables that read it, the expiry sweep between them |
| `Bootstrap.dfy` | ranking of gossip bootstrap candidates |
| `QueryText.dfy`, `QueryReading.dfy` | meshctl: the query format, its round trip, and what it does to arbitrary values |
| `RouterConfig.dfy`, `RouterConsole.dfy` | meshctl: a router's configuration, the text of queries and commands, and the console that reads it |
| `Reconcile.dfy`, `OnePass.dfy` | meshctl: the reconciler's plan and what running it achieves |
| `MeshctlApply.dfy`, `ApplyLimits.dfy` | meshctl: `apply`, its exact report, and the routers on which it falls short |

Objects the source updates in place are classes whose methods are proved against a specification function;
the results are proved about those functions, over whole runs.

## Main results

- **Leased names.** Any set of claims converges under every order and repetition of delivery exactly when
  one claim beats all others (`ConvergesIffDominated`). The pairwise winners can form a circle in two ways: a
  *gap triple* of three keys, or a *tenure triple* of two keys, in which one key's records carry two first
  claims. Every sub-collection converges exactly when neither occurs and no two claims tie
  (`EveryPartConvergesIffAcyclic`), with no condition on the claims. Two keys therefore converge unless their
  claims tie or one key has two tenures in one of two shapes (`TenureTripleIff`): a former owner claims the
  name anew, or a key claims it on two partitioned nodes and renews the earlier claim last. Partitioned nodes
  issue both (`ReclaimIsIssued`, `TwoTenuresAreIssued`), and the book then depends on the last arrival.
  The comment on `cross_owner_winner` calls it symmetric: it is not when two first claims tie, and
  `VerdictIsSymmetricIff` says exactly when it is.
- **One live name per key.** Kept by every local step; over runs mixing local sweeps and gossip it holds
  throughout if and only if no arrival hands a key its second live name (`RuleIffNeverDoubles`).
- **Signalling.** `SignallingReplies` says of every event exactly who hears what and where it leaves
  everybody. After every run the room maps, the reverse index and the subscriptions agree. From exact
  client views, the one step that breaks them is a *stranding switch*: a member asking for a different, full
  room is taken out of its old room and no `peer-left` is published (`StepExactIff`); `StrandingHappens`
  reaches one. Over every run, each client believes in its other members and, besides them, in exactly the
  peers stranded from that room since it joined that have not come back (`ViewsAreMembersAndGhosts`,
  `GhostsAreStranded`).
- **Allocator.** The wrap-around probe visits every slot once, never overflows 32 bits, and is complete; the
  fallback returns the largest size that fits.
- **Sweep and DNS.** Which name resolves to what is stated from the inputs for every type of question
  (`WellKnownReply`, `AddressReply`, `PortReply`, `TextReply`). The expiry sweep is invisible to every reader if and only if the hard expiry is no
  shorter than the stale threshold. An empty answer of an earlier table can hide a later table's answer in
  general, but not in the daemon's stack.
- **Rate limiter.** For each limit, a clock keeps the bound of accepted messages per second on every run of
  messages if and only if the limit is at most one or the clock never rebounds: runs a second past a reading
  and then comes back to within a second of it (`BoundsEveryRunIffNoRebound`). A clock that never goes back
  never rebounds.
- **Query format.** A printed line is read back as its item's record if and only if no value contains the
  separator and none but the last ends in its first two characters (`LineReadsIffSplittable`); the module
  comment names only the first.
- **Command text.** Values are put between double quotes without escaping. A printed query or command
  determines what was printed where every value is *quotable*, free of `"`, `\` and `$`; a removal by comment
  runs as meant on every console that reads such text as it stands if and only if its comment is quotable
  (`RemovalRunsAsMeantIff`). The removal of an unquotable comment either says no command, and may then do
  anything, or is taken for the removal of a filter smuggled behind the comment, and any filter can be
  (`SaysIff`, `SmuggledFilter`).
- **Reconciler.** One pass takes, on each owned path, exactly what the filters said by the unclaimed comments
  read there match. So, for any values on the router, on a console that obeys printable text and refuses
  removals that say no command, which exists (`RefusingConsoleExists`): every resource ends in its desired
  state if and only if the filters leave it exactly one instance and that one is as desired
  (`OnePassFixesIff`); no leftover stays if and only if the filters take each; other configuration is
  untouched if and only if they take none of it; no command fails if and only if every unclaimed comment says
  one. Where the queried values read back, the report of `apply` is success if and only if all but the
  ambiguous was in place, or the first two hold and no command fails (`ReportsIff`); with an empty plan an
  ambiguous resource goes unreported (`ApplyCanHideConflict`).
- **Reconciler, quotable comments.** Where the leftovers' comments are quotable besides, every console that
  obeys will do, and one pass suffices (`OnePassSuffices`): everything is as desired if and only if nothing was
  ambiguous, no leftover stays, other configuration is untouched, and a second plan is empty.
- **Reconciler, what goes wrong.** On readable routers with nothing ambiguous, on every console that obeys: the
  leftover comment `mjolnir" or comment="mjolnir container egress` makes the pass delete its own rule
  (`OwnRuleIsDeleted`); `mjolnirx" or comment~"^mjolnirx` is pruned although unquotable
  (`SelfSweepingIsPruned`); and a smuggled filter removes untagged items (`QuoteWidensRemoval`), which
  `plan.rs` says cannot happen. `SeparatorLeftoverStays`, `ForeignItemIsRemoved` and `DriftIsHidden` show what
  unreadable values do.

## Model

| member | source | states |
|---|---|---|
| HybridClock.HlcOrder | crates/mjolnir-mesh/src/crdt/hlc.rs:19-26 | stamps are strictly and totally ordered; the order refines the wall clock |
| HybridClock.HlcTransitive | crates/mjolnir-mesh/src/crdt/hlc.rs:19-26 | the order on stamps is transitive |
| HybridClock.HlcLexicographic | crates/mjolnir-mesh/src/crdt/hlc.rs:19-26 | the wall clock decides, then the counter, then the first difference of the node ids |
| LeasedNames.NameBook.Apply | crates/mjolnir-mesh/src/crdt/leased_name.rs:162-183 | the in-place update: only the named entry changes, to the merge's winner, and the verdict is reported |
| LeasedNames.LeaseLastsAnHour | crates/mjolnir-mesh/src/crdt/leased_name.rs:90-104 | a lease is expired exactly when more than 3,600,000 ms have passed since its renewal |
| LeasedNames.MergeReports | crates/mjolnir-mesh/src/crdt/leased_name.rs:138-157 | what the merge reports of two records, and both sides of a conflict |
| LeasedNames.BeatsOrTied | crates/mjolnir-mesh/src/crdt/leased_name.rs:112-126 | of any two different records exactly one beats the other, or their stamps tie |
| LeasedNames.MergeFollowsBeats | crates/mjolnir-mesh/src/crdt/leased_name.rs:138-183 | both arrival orders end in a record exactly when it beats the other |
| LeasedNames.VerdictIsSymmetricIff | crates/mjolnir-mesh/src/crdt/leased_name.rs:106-126 | the cross-owner verdict ignores arrival order exactly when first claims differ, or tie with exactly one lease lapsed at that moment |
| LeasedNames.TiedClaimsKeepTheFirst | crates/mjolnir-mesh/src/crdt/leased_name.rs:106-126 | two live claims with tied first claims: each node keeps the one it held first, so they do not converge |
| LeasedNames.HeldWasDelivered | crates/mjolnir-mesh/src/crdt/leased_name.rs:162-183 | what a node holds is one of the records it was sent |
| LeasedNames.DominatorIsHeld | crates/mjolnir-mesh/src/crdt/leased_name.rs:138-183 | a record that beats all others is held after any order and repetition of delivery |
| LeasedNames.ConvergesIffDominated | crates/mjolnir-mesh/src/crdt/leased_name.rs:112-183 | all deliveries of any set of claims end in the same record if and only if one claim beats every other |
| LeasedNames.TiedDiverge | crates/mjolnir-mesh/src/crdt/leased_name.rs:112-183 | two tied records, delivered alone, do not converge |
| LeasedNames.TwoOwnersConverge | crates/mjolnir-mesh/src/crdt/leased_name.rs:112-183 | two keys, any renewals, one first claim per key: the later claimant's newest record if first claimed past the earlier one's newest lease, otherwise the earlier claimant's newest |
| LeasedNames.GapTripleIsCycle | crates/mjolnir-mesh/src/crdt/leased_name.rs:112-126 | three claims across a lease gap beat one another in a circle |
| LeasedNames.TenureTripleIff | crates/mjolnir-mesh/src/crdt/leased_name.rs:112-157 | a tenure triple read off the stamps: the newer record's first claim falls inside the rival's lease, and either the rival's inside the older record's lease or the older record's past the rival's lease |
| LeasedNames.OneTenureExcludesTenureTriples | crates/mjolnir-mesh/src/crdt/leased_name.rs:76-78 | keys that keep the first claim they started with form no tenure triple |
| LeasedNames.CycleIsTriple | crates/mjolnir-mesh/src/crdt/leased_name.rs:112-157 | every circle of three records, whatever their stamps, is a gap or a tenure triple |
| LeasedNames.NoCycle | crates/mjolnir-mesh/src/crdt/leased_name.rs:112-157 | without gap and tenure triples no three records beat one another in a circle |
| LeasedNames.BeatsIsStrictTotalOrder | crates/mjolnir-mesh/src/crdt/leased_name.rs:112-157 | without ties and those triples the winner relation is a strict total order |
| LeasedNames.CycleDiverges | crates/mjolnir-mesh/src/crdt/leased_name.rs:112-183 | three records in a circle, delivered alone, do not converge |
| LeasedNames.EveryPartConvergesIffAcyclic | crates/mjolnir-mesh/src/crdt/leased_name.rs:112-183 | every sub-collection of any claims converges if and only if no two tie and there is neither a gap nor a tenure triple |
| LeasedNames.ThreeKeysCanDisagree | crates/mjolnir-mesh/src/crdt/leased_name.rs:112-183 | three one-record keys whose held record is whichever arrived last |
| LeasedNames.TwoKeysConvergeIffNoTenureTriple | crates/mjolnir-mesh/src/crdt/leased_name.rs:112-183 | two keys agree on every sub-collection if and only if no two records tie and no tenure triple occurs |
| LeasedNames.TwoKeysCanDisagree | crates/mjolnir-mesh/src/crdt/leased_name.rs:112-183 | a former owner's new claim: three records of two keys whose held record is whichever arrived last |
| LeasedNames.TwoTenuresCanDisagree | crates/mjolnir-mesh/src/crdt/leased_name.rs:112-183 | the same where nobody lost the name: the later renewal carries the earlier first claim |
| LeasedNames.BooksConverge | crates/mjolnir-mesh/src/crdt/leased_name.rs:162-183 | nodes that heard the same announcements hold equal books when no name has a tie, a gap triple or a tenure triple |
| NameIngest.NameOwnedBy | crates/mjolnir-mesh/src/crdt/leased_name.rs:188-192 | the first name in key order the key holds live, or none exactly when it holds none |
| NameIngest.IngestFile | crates/mjolnir-mesh/src/bin/mjolnir-meshd.rs:2690-2760 | one spool file: skipped or merged as specified; a reported entry carries the claim's own key, signature, challenge, target and scheme and is the one the book then holds, and an unreported file leaves the book unchanged |
| NameIngest.IngestSpool | crates/mjolnir-mesh/src/bin/mjolnir-meshd.rs:2662-2760 | a sweep over the spool equals ingesting the files one by one; what is broadcast then stood in the book, and every file that changed the book is broadcast |
| NameIngest.IngestStep | crates/mjolnir-mesh/src/bin/mjolnir-meshd.rs:2713-2753 | one ingest keeps a staying owner's first claim, and a live lease keeps its owner and is not shortened |
| NameIngest.OneLiveNamePerKey | crates/mjolnir-mesh/src/bin/mjolnir-meshd.rs:2713-2753 | over every run of local sweeps no key owns two unexpired names |
| NameIngest.TenureIsKept | crates/mjolnir-mesh/src/bin/mjolnir-meshd.rs:2729-2741 | a key that stays the owner keeps its `first_claimed_at` through the run |
| NameIngest.LiveLeaseIsSafe | crates/mjolnir-mesh/src/bin/mjolnir-meshd.rs:2713-2753 | a live lease is never taken over nor shortened by local claims |
| NameIngest.StepKeepsRuleIff | crates/mjolnir-mesh/src/crdt/leased_name.rs:162-192 | a local step or an arrival keeps one live name per key if and only if it is not an arriving live claim taken over while its key holds another name live |
| NameIngest.RuleIffNeverDoubles | crates/mjolnir-mesh/src/crdt/leased_name.rs:162-192 | over every run mixing local sweeps and arrivals the rule holds throughout if and only if no such arrival occurs |
| NameIngest.ArrivalCanDouble | crates/mjolnir-mesh/src/crdt/leased_name.rs:162-183 | such an arrival exists |
| NameIngest.IssuesIff | crates/mjolnir-mesh/src/bin/mjolnir-meshd.rs:2727-2753 | a node issues exactly the entry with the kept or new first claim, when the merge takes it |
| NameIngest.ReclaimIsIssued | crates/mjolnir-mesh/src/bin/mjolnir-meshd.rs:2727-2753 | the records of the first shape of tenure triple are ones that nodes issue under a partition |
| NameIngest.TwoTenuresAreIssued | crates/mjolnir-mesh/src/bin/mjolnir-meshd.rs:2727-2753 | so are those of the second shape |
| Alloc.NestedIffOverlapping | crates/mjolnir-mesh/src/alloc.rs:139-143 | one block contains the other exactly when they share an address |
| Alloc.OverlapsAnyIffNotFree | crates/mjolnir-mesh/src/alloc.rs:139-143 | the containment test detects exactly address overlap with some claim |
| Alloc.SlotFits | crates/mjolnir-mesh/src/alloc.rs:69-99 | the product and sum locating a slot stay inside the base and inside 32 bits |
| Alloc.SlotShape | crates/mjolnir-mesh/src/alloc.rs:69-99 | every slot is aligned and inside the base |
| Alloc.EveryBlockIsASlot | crates/mjolnir-mesh/src/alloc.rs:69-99 | every aligned block of that size inside the base is a slot, so probing slots misses nothing |
| Alloc.WalkVisitsEachSlotOnce | crates/mjolnir-mesh/src/alloc.rs:76-99 | for every hash the wrap-around walk meets each slot at exactly one step |
| Alloc.Candidate | crates/mjolnir-mesh/src/alloc.rs:82-92 | the machine-width computation of a candidate does not overflow and gives that slot |
| Alloc.PickSubnet | crates/mjolnir-mesh/src/alloc.rs:53-99 | the first free slot of the walk; none exactly when every slot overlaps a claim |
| Alloc.FirstFreeIsFree | crates/mjolnir-mesh/src/alloc.rs:53-99 | a returned block is aligned, inside the base and disjoint from every claim |
| Alloc.HalvesAreFree | crates/mjolnir-mesh/src/alloc.rs:117-135 | both halves of a free block are free |
| Alloc.SmallerSizesStayFree | crates/mjolnir-mesh/src/alloc.rs:117-135 | room at one size means room at every smaller size |
| Alloc.BumpSmallerSubnet | crates/mjolnir-mesh/src/alloc.rs:188-194 | one bit longer down to /30, then nothing |
| Alloc.PickSubnetOrSmaller | crates/mjolnir-mesh/src/alloc.rs:117-135 | a block of the largest size that fits; for requests up to /30 none exactly when no /30 is free |
| NetText.PrintNetInjective | crates/mjolnir-mesh/src/bin/mjolnir-meshd.rs:2149-2159 | distinct networks have distinct printed store keys |
| NetText.PrintNetIsCidr | crates/mjolnir-mesh/src/bin/mjolnir-meshd.rs:2149-2159 | the text is four decimal octets, highest first, a slash and the decimal prefix length |
| Claims.MeshIsNotBackhaul | crates/mjolnir-mesh/src/tun/link.rs:72-74 | blocks of the mesh space are never backhaul blocks and share no address with one |
| Claims.BackhaulIff | crates/mjolnir-mesh/src/tun/link.rs:72-74 | the backhaul test is containment in 10.254.0.0/16, that is, all addresses between 10.254.0.0 and 10.254.255.255 |
| Claims.OwnKeysIff | crates/mjolnir-mesh/src/bin/mjolnir-meshd.rs:1959-1968 | own client claims are the own IPv4 claims outside that block |
| Claims.PartitionClaims | crates/mjolnir-mesh/src/bin/mjolnir-meshd.rs:1948-1980 | a most senior own client claim, the nets of the others by seniority, and the foreign nets |
| Claims.ClaimStore.ReleaseClaim | crates/mjolnir-mesh/src/bin/mjolnir-meshd.rs:2188-2211 | the key leaves the store and its release is published |
| Claims.FreshKeyIsNew | crates/mjolnir-mesh/src/bin/mjolnir-meshd.rs:2137-2159 | a picked net has a new key and is disjoint from every v4 claim in the store |
| Claims.ClaimStore.ClaimAndPublish | crates/mjolnir-mesh/src/bin/mjolnir-meshd.rs:2111-2181 | afterwards exactly one own client claim, a most senior one if any was held, the rest released and announced by seniority with a stamp each; otherwise a fresh largest-fit claim, or no change when nothing fits; other claims untouched; no claim inside 10.254.0.0/16 is changed, kept, announced or released |
| Claims.ReleaseAt | crates/mjolnir-mesh/src/bin/mjolnir-meshd.rs:2122-2124 | the i-th release names the i-th of the other claims and carries the i-th stamp |
| RateLimit.RateLimiter.IsRateLimited | src/ws/setup.ts:31-46 | one check changes only that socket's bucket: pruned, and extended when admitted |
| RateLimit.BucketRefinesHistory | src/ws/setup.ts:40-46 | the pruned bucket holds the same recent stamps as the full history |
| RateLimit.RejectedIffWindowFull | src/ws/setup.ts:31-46 | rejected exactly when the limit or more were accepted in the preceding second |
| RateLimit.SlidingWindowBound | src/ws/setup.ts:31-46 | every one-second window of any run holds at most the limit of accepted messages |
| RateLimit.BoundWithoutRebound | src/ws/setup.ts:31-46 | the bound holds on every run whose clock never rebounds, however often it steps back |
| RateLimit.ReboundBreaksBound | src/ws/setup.ts:39-45 | after any rebound, under any limit of two or more, one message too many is accepted within a second |
| RateLimit.SmallLimitsHold | src/ws/setup.ts:39-45 | a limit of one or none keeps the bound on every run, whatever the clock does |
| RateLimit.BoundsEveryRunIffNoRebound | src/ws/setup.ts:31-46 | for each limit: a clock keeps the bound for every run of messages if and only if it never rebounds or the limit is at most one |
| Rooms.Room.AddPeer | src/rooms/Room.ts:16-21 | added unless the room is full, and then unchanged |
| Rooms.RoomManager.JoinRoom | src/rooms/RoomManager.ts:14-72 | the object graph follows the lobby specification, refused joins included |
| Rooms.RoomManager.LeaveRoom | src/rooms/RoomManager.ts:74-92 | the peer leaves its room and the index; an emptied room is dropped |
| Signalling.HandleMessage | src/signaling/handlers.ts:12-121 | state change and actions of each client message |
| Signalling.SignalingServer.ExecuteActions | src/ws/setup.ts:55-78 | sends reach the target's socket, publishes every other subscriber, in order |
| Signalling.SignalingServer.Open | src/ws/setup.ts:86-94 | the new connection's step of the state machine |
| Signalling.SignalingServer.Message | src/ws/setup.ts:96-146 | limiter first, then parsing, handling, subscriptions, actions; the verdict is the limiter's |
| Signalling.SignalingServer.Close | src/ws/setup.ts:148-169 | departure announced, all per-connection state dropped |
| SignallingProofs.JoinOutcome | src/rooms/RoomManager.ts:24-72 | which way a join ends, read off the lobby before it |
| SignallingProofs.RoomsAreReported | src/rooms/RoomManager.ts:24-92 | a room is reported new exactly when nobody was in it, deleted exactly when the peer was alone in it |
| SignallingProofs.JoinMembers | src/rooms/RoomManager.ts:34-72 | a successful join adds the peer to one room and removes it from every other |
| SignallingProofs.LeaveAgrees | src/rooms/RoomManager.ts:74-92 | leaving keeps the two maps in agreement and moves no one else |
| SignallingProofs.StepKeepsInv | src/ws/setup.ts:86-169 | every step keeps index, capacity, socket and subscription agreement |
| SignallingProofs.IndexesAgreeOnEveryRun | src/ws/setup.ts:86-169 | after every run: in a room's map iff indexed there iff subscribed; no room empty or over capacity |
| SignallingProofs.JoinHeard | src/signaling/handlers.ts:32-61 | what each peer hears of a join |
| SignallingProofs.RefusedSwitch | src/rooms/RoomManager.ts:34-63 | after a refused switch the views are exact iff the peer was alone in its old room |
| SignallingProofs.StepExactIff | src/ws/setup.ts:86-169 | from exact views a step keeps them exact if and only if it is not a stranding switch |
| SignallingProofs.ClientViewsAreExact | src/ws/setup.ts:96-169 | over every run without a stranding switch each peer's replayed messages give exactly the other members and their names |
| SignallingRuns.StrandingHappens | src/rooms/RoomManager.ts:34-63 | a run of ten peers in one room and two in another that reaches a stranding switch and breaks a view |
| SignallingRuns.ViewsAreMembersAndGhosts | src/ws/setup.ts:96-169 | over every run each view is the other members plus exactly the tracked ghosts |
| SignallingRuns.GhostsAreStranded | src/ws/setup.ts:96-169 | a peer is a ghost of a viewer, under a name, exactly when some step stranded it under that name from the viewer's room and since then neither has joined the other |
| SignallingRuns.ExactIffNoGhosts | src/ws/setup.ts:96-169 | a view is exact exactly when nobody is wrongly believed in |
| SignallingReplies.RelayReachesItsTarget | src/signaling/handlers.ts:77-117 | an offer, answer or candidate to another peer of the room reaches that peer alone, from the sender, and changes nothing else |
| SignallingReplies.RelayIsRefused | src/signaling/handlers.ts:77-92 | from no room the sender alone hears NOT_IN_ROOM; to itself or outside its room, PEER_NOT_FOUND |
| SignallingReplies.SenderAloneHears | src/ws/setup.ts:96-146 | a ping is answered, a limited or unreadable message refused, to the sender alone |
| SignallingReplies.RefusalIsHeard | src/signaling/handlers.ts:18-69 | a leave from no room, a join of the own room and of a full one from none: the sender alone hears why not |
| SignallingReplies.JoinIsHeard | src/signaling/handlers.ts:18-61 | joiner, new room and old room each hear exactly their part of a join; nobody else hears or moves |
| SignallingReplies.RefusedSwitchIsHeard | src/signaling/handlers.ts:18-61 | a join of a full room from another: the sender is in no room and hears ROOM_FULL, nobody hears anything else |
| SignallingReplies.LeaveIsHeard | src/signaling/handlers.ts:63-75 | the rest of the room hears of a leave, and nobody else |
| SignallingReplies.OpenIsHeard | src/ws/setup.ts:86-94 | a new connection hears its id and is in no room |
| SignallingReplies.CloseIsHeard | src/ws/setup.ts:148-169 | a closed connection is gone and the rest of its room hears of it |
| Liveness.LivenessTracker.ObserveWithEgress | crates/mjolnir-mesh/src/crdt/liveness.rs:118-150 | accepted exactly when newer, and then recorded with its arrival and advertisement |
| Liveness.LivenessTracker.Touch | crates/mjolnir-mesh/src/crdt/liveness.rs:157-172 | refreshes the arrival time, keeps the known beacon, and the node is not stale for a threshold |
| Liveness.GreatestBeaconIsHeld | crates/mjolnir-mesh/src/crdt/liveness.rs:70-150 | after loss, duplication and reordering: the greatest delivered beacon with its first arrival time |
| Liveness.OrderInsensitive | crates/mjolnir-mesh/src/crdt/liveness.rs:118-150 | nodes that heard the same beacons hold the same beacon of every origin |
| Liveness.ReplaysChangeNothing | crates/mjolnir-mesh/src/crdt/liveness.rs:70-150 | replays of the held or older beacons change nothing about the origin |
| Liveness.SilentGatewayExpires | crates/mjolnir-mesh/src/crdt/liveness.rs:182-216 | past the stale threshold the gateway is out, whatever is replayed |
| Liveness.SilenceIff | crates/mjolnir-mesh/src/crdt/liveness.rs:190-229 | who is stale and who long dead after any deliveries, by when the greatest beacon first arrived |
| Liveness.GatewaysIff | crates/mjolnir-mesh/src/crdt/liveness.rs:182-188 | who is a live gateway after any deliveries: whose greatest beacon arrived in time and advertises a healthy uplink, which is the one reported |
| Liveness.WithdrawnGatewayStaysOut | crates/mjolnir-mesh/src/crdt/liveness.rs:118-188 | a gateway that withdraws or reports its uplink unhealthy is out at once and older beacons do not bring it back |
| MeshDns.HandleQuery | crates/mjolnir-mesh/src/dns_responder.rs:487-560 | the reply assembled field by field is the specified one |
| MeshDns.BookKeyIff | crates/mjolnir-mesh/src/dns_responder.rs:351-355 | a query name finds the entry of its bare name: the name, `.mesh`, any final dots |
| MeshDns.WellKnownIff | crates/mjolnir-mesh/src/dns_responder.rs:146-168 | the well-known names are `hello.mesh` and `id.mesh` in any case, with any final dots |
| MeshDns.WellKnownReply | crates/mjolnir-mesh/src/dns_responder.rs:100-145 | they have the gateway's address, or 192.168.1.1 without one |
| MeshDns.AddressReply | crates/mjolnir-mesh/src/dns_responder.rs:242-395 | any other name has the IPv4 address of its service while the owner was heard within the threshold, otherwise of its lease renewed within 90,000 ms, otherwise no data or denial |
| MeshDns.PortReply | crates/mjolnir-mesh/src/dns_responder.rs:242-402 | the same for ports, where a port of zero is none |
| MeshDns.TextReply | crates/mjolnir-mesh/src/dns_responder.rs:242-330 | the same for the service's text pairs; other questions have no answer |
| MeshDns.CompositeAnswersIffServed | crates/mjolnir-mesh/src/dns_responder.rs:170-186 | an answer exists iff some table has one and no earlier table responds |
| MeshDns.NegativeAnswers | crates/mjolnir-mesh/src/dns_responder.rs:45-79 | the composite keeps the law; NXDOMAIN iff no table knows the name; NODATA iff one does and none serves the type (sections 2.1 and 2.2 of RFC 2308) |
| MeshDns.DaemonNoData | crates/mjolnir-mesh/src/bin/mjolnir-meshd.rs:840-853 | in the daemon's stack NODATA iff the name is known and no table at all has an answer |
| MeshDns.EmptyAnswerShadows | crates/mjolnir-mesh/src/dns_responder.rs:170-186 | a law-abiding stack in which an empty TXT answer hides a later table's |
| LaneSweep.Lanes.ExpireServices | crates/mjolnir-mesh/src/bin/mjolnir-meshd.rs:4056-4083 | removes exactly the entries of owners past the hard expiry |
| LaneSweep.Lanes.CollectTombstones | crates/mjolnir-mesh/src/bin/mjolnir-meshd.rs:4085-4113 | stamps, collects and forgets as specified; changed iff something was collected |
| LaneSweep.Lanes.Sweep | crates/mjolnir-mesh/src/bin/mjolnir-meshd.rs:4044-4120 | one sweep over both lanes; persisted only when something changed |
| LaneSweep.SweepIsInvisible | crates/mjolnir-mesh/src/bin/mjolnir-meshd.rs:4056-4083 | every question gets the same reply with and without the sweep, now and later, whatever other names are published or withdrawn, until a removed owner's next newer beacon or the next publish of a removed name |
| LaneSweep.HidesEverySweepIff | crates/mjolnir-mesh/src/crdt/liveness.rs:211-229 | sweeps are invisible to every reader of every stack exactly when hard expiry is no shorter than the stale threshold |
| LaneSweep.StampIsStart | crates/mjolnir-mesh/src/bin/mjolnir-meshd.rs:4090-4105 | after every run a kept tombstone has a stamp: the time of the sweep its unbroken stay began with |
| LaneSweep.CollectedIffHeldTooLong | crates/mjolnir-mesh/src/bin/mjolnir-meshd.rs:4085-4113 | collected iff present at every sweep across a span longer than the retention |
| Bootstrap.SortedIsUnique | crates/mjolnir-mesh/src/bootstrap.rs:77-89 | recency with the id tiebreak leaves one sorted listing |
| Bootstrap.SplitBook | crates/mjolnir-mesh/src/bootstrap.rs:63-76 | the address book split by whether its ids were heard, long-dead ones dropped, in any walk order |
| Bootstrap.RankBootstrapCandidates | crates/mjolnir-mesh/src/bootstrap.rs:49-106 | the cap-length prefix of the deduplicated tiers without self |
| Bootstrap.TiersAreUnique | crates/mjolnir-mesh/src/bootstrap.rs:49-89 | the tiers do not depend on the order of the claim owners or of the address book |
| Bootstrap.RankingIsUnique | crates/mjolnir-mesh/src/bootstrap.rs:49-106 | one ranking for every order of the claim owners; a smaller cap gives its prefix |
| Bootstrap.RankingDependsOnOwnerSet | crates/mjolnir-mesh/src/bootstrap.rs:49-106 | the ranking depends on the claim owners only as a set |
| Bootstrap.RankingContents | crates/mjolnir-mesh/src/bootstrap.rs:49-106 | the uncapped ranking is exactly the roster plus unexpired book and claim ids, less self, each once |
| Bootstrap.RankingFollowsTiers | crates/mjolnir-mesh/src/bootstrap.rs:77-106 | tier order, then recency with the id tiebreak; roster order inside the roster |
| Bootstrap.MostRecentFirst | crates/mjolnir-mesh/src/bootstrap.rs:77-106 | within each tier the most recently heard of first, and of equals the id that is first as text |
| QueryText.BuildQueryScript | crates/mjolnir-meshctl/src/routeros.rs:48-75 | the text grown in the loop is the script whose concatenation prints the fields |
| QueryText.ScriptsSent | crates/mjolnir-meshctl/src/routeros.rs:48-75 | the script for no, one and two fields, spelled out |
| QueryText.EvalIsJoin | crates/mjolnir-meshctl/src/routeros.rs:54-70 | evaluating that concatenation prints the `key=value` pairs joined behind the record prefix |
| QueryText.ParseRecords | crates/mjolnir-meshctl/src/routeros.rs:79-98 | the nested loops compute the record of every record line, in order |
| QueryText.EnsureComplete | crates/mjolnir-meshctl/src/routeros.rs:104-117 | succeeds exactly when some line is the sentinel |
| QueryText.SplitJoinIff | crates/mjolnir-meshctl/src/routeros.rs:88-93 | splitting undoes joining if and only if no piece holds a separator start, even at its end |
| QueryText.BarFreeIsSepFree | crates/mjolnir-meshctl/src/routeros.rs:20-22 | a value without a bar is always safe |
| QueryText.HalfSepIsHarmful | crates/mjolnir-meshctl/src/routeros.rs:20-22 | a piece ending in the separator's first two characters is always split wrongly |
| QueryText.PrintedLineParses | crates/mjolnir-meshctl/src/routeros.rs:79-98 | a readable printed line parses back to its item's record and is never the sentinel |
| QueryText.RoundTrip | crates/mjolnir-meshctl/src/routeros.rs:48-117 | parsing the output of readable items returns their records in order through any noise and line endings; complete iff the sentinel was printed |
| QueryText.ReadQuery | crates/mjolnir-meshctl/src/routeros.rs:133-143 | the whole query: the records, or failure exactly when the script did not finish |
| QueryReading.LineReadsIffSplittable | crates/mjolnir-meshctl/src/routeros.rs:79-98 | a printed line is read back as its item's record if and only if its pairs can be split apart |
| QueryReading.ReadValuesArePlain | crates/mjolnir-meshctl/src/routeros.rs:79-98 | whatever was printed, no value read holds the separator or a line feed |
| QueryReading.TextIsReadItemByItem | crates/mjolnir-meshctl/src/routeros.rs:79-98 | parsing the whole printed text reads each item on its own, whatever the values |
| QueryReading.TranscriptCompletes | crates/mjolnir-meshctl/src/routeros.rs:104-117 | the sentinel is found at the end of every whole print, whatever the values |
| MeshctlApply.DesiredResourcesAreGood | crates/mjolnir-meshctl/src/plan.rs:121-192 | the desired set of every subnet has distinct paths and clean, distinct field names, can be printed, and is found by its comment where comment-owned |
| MeshctlApply.DesiredResourcesWriteReadable | crates/mjolnir-meshctl/src/plan.rs:121-192 | the values it writes can be read back |
| MeshctlApply.ConvergedMeans | crates/mjolnir-meshctl/src/plan.rs:121-192 | a router is converged exactly when it holds the address after the network's on the bridge, the one after that on the container's veth with the former as gateway, the port, and the two rules for the subnet, in decimal octets with the prefix length |
| Reconcile.StatusMeans | crates/mjolnir-meshctl/src/plan.rs:196-219 | missing, converged and conflict in terms of the matching live items and their values |
| Reconcile.DiffsMean | crates/mjolnir-meshctl/src/plan.rs:199-211 | drift reports exactly the fields read with another value than wanted, with both |
| Reconcile.SkipsMean | crates/mjolnir-meshctl/src/apply.rs:71-76 | skipped are exactly the ambiguous resources, with how many instances were read |
| MeshctlApply.ObserveResources | crates/mjolnir-meshctl/src/plan.rs:223-241 | each desired resource paired with its status as read from the printed and parsed query |
| MeshctlApply.ScanPrunes | crates/mjolnir-meshctl/src/plan.rs:243-276 | names exactly the unclaimed comments that the printed and parsed scans of the owned paths show |
| MeshctlApply.PlanChanges | crates/mjolnir-meshctl/src/apply.rs:40-90 | the printed commands in desired order with the printed removals last; ambiguous resources skipped |
| Reconcile.MendedStatus | crates/mjolnir-meshctl/src/apply.rs:50-77 | the change planned from the reading converges the resource if and only if at most one instance matches and the reading shows it if that one is off |
| Reconcile.RemovalsKeep | crates/mjolnir-meshctl/src/apply.rs:79-87 | removals leave exactly the items that none of their filters matches, in order |
| Reconcile.AfterPlanStatus | crates/mjolnir-meshctl/src/apply.rs:50-87 | after the planned change and the removals a resource is as desired if and only if exactly one instance is left and it carries the desired values |
| RouterConsole.SelectorDetermined | crates/mjolnir-meshctl/src/plan.rs:52-57 | a printed filter determines the filter |
| RouterConsole.CommandDetermined | crates/mjolnir-meshctl/src/apply.rs:51-87 | a printed command determines the command, its values being quotable |
| RouterConsole.RequestDetermined | crates/mjolnir-meshctl/src/routeros.rs:48-75 | a query script determines path, filter and fields |
| RouterConsole.TextsSent | crates/mjolnir-meshctl/src/plan.rs:54-82 | the text of `add`, `set`, `remove` and of filters, spelled out |
| RouterConsole.ConsoleExists | crates/mjolnir-meshctl/src/routeros.rs:119-143 | there is a console that reads every printable query and command as it stands, whatever it does with other texts |
| RouterConsole.RemovalRunsAsMeantIff | crates/mjolnir-meshctl/src/apply.rs:79-87 | a removal runs as meant on every router and every such console if and only if its comment is quotable |
| RouterConsole.SmuggledFilter | crates/mjolnir-meshctl/src/apply.rs:79-87 | two filters, one text: for every filter a comment whose removal prints like the removal of all the filter matches |
| RouterConsole.SaysIff | crates/mjolnir-meshctl/src/apply.rs:79-87 | what a removal says: a quotable comment itself, or the filter smuggled behind a quotable beginning, and nothing else |
| RouterConsole.MeaningOfRemoval | crates/mjolnir-meshctl/src/apply.rs:79-87 | a removal's text is that of the removal by the filter it says, or of no printable command |
| OnePass.RunIsExec | crates/mjolnir-meshctl/src/main.rs:381-400 | sending any texts one by one executes the commands they say and counts those that say none as failed, where these are refused |
| OnePass.RefusingConsoleExists | crates/mjolnir-meshctl/src/routeros.rs:119-131 | one console obeys and refuses every removal that says no command, on all routers |
| OnePass.UnsaidMayDoAnything | crates/mjolnir-meshctl/src/apply.rs:79-87 | without that refusal such a removal may do anything |
| OnePass.PlanRunsAsMeantIff | crates/mjolnir-meshctl/src/apply.rs:79-87 | every command of a plan runs as meant on every such console if and only if every comment to prune is quotable |
| OnePass.OnePassFixesIff | crates/mjolnir-meshctl/src/apply.rs:40-90 | whatever the values: one pass makes every resource as desired if and only if what the comments read say leaves it exactly one instance, as desired |
| OnePass.OnePassPrunesIff | crates/mjolnir-meshctl/src/apply.rs:40-90 | whatever the values: one pass leaves no leftover if and only if each is taken by the filter some comment read says |
| OnePass.OnePassFailsNoneIff | crates/mjolnir-meshctl/src/main.rs:390-399 | no command fails if and only if the removal of every comment to prune says one |
| OnePass.QuotablePassIff | crates/mjolnir-meshctl/src/apply.rs:40-90 | where the comments to prune are quotable, on every console that obeys: all as desired iff each resource is fixable, no leftover iff every leftover's comment was read, other configuration kept iff no foreign comment was read, and no failure |
| OnePass.QuotableTagsSuffice | crates/mjolnir-meshctl/src/plan.rs:261-275 | if every tagged comment is quotable, so is every comment read, whatever it is read as |
| OnePass.PlanEmptyIff | crates/mjolnir-meshctl/src/apply.rs:40-90 | the plan is empty exactly when every resource is read as converged or ambiguous and nothing unclaimed is read |
| OnePass.OnePassConverges | crates/mjolnir-meshctl/src/apply.rs:40-90 | where the queried values read back: the four exact conditions in terms of the leftovers' comments, for what the router holds and for what is read of it |
| OnePass.OnePassSuffices | crates/mjolnir-meshctl/src/apply.rs:40-90 | where the leftovers' comments are quotable besides, on every console that obeys: all as desired, and read as such, iff nothing was ambiguous; no leftover, no failure, other configuration untouched |
| OnePass.SecondPlanIsEmptyIff | crates/mjolnir-meshctl/src/apply.rs:40-90 | where the queried values read back, a second plan has nothing to do if and only if the first took every leftover and left each resource ambiguous or as desired |
| OnePass.SecondPlanIsEmpty | crates/mjolnir-meshctl/src/apply.rs:40-90 | with quotable leftovers it never has, ambiguous resources or not |
| OnePass.OnePassSparesIff | crates/mjolnir-meshctl/src/plan.rs:26-31 | whatever the values: other paths and, in order, the foreign items of managed paths are kept if and only if no comment read says a filter that takes a foreign item |
| MeshctlApply.Reobserve | crates/mjolnir-meshctl/src/main.rs:406-412 | reports convergence exactly when every resource is read as converged and no unclaimed comment is read |
| MeshctlApply.ReportMeans | crates/mjolnir-meshctl/src/main.rs:376-423 | an empty plan is a success that changes nothing; success otherwise means no failed command and all read as converged |
| MeshctlApply.Apply | crates/mjolnir-meshctl/src/main.rs:364-424 | for every subnet and router: an empty plan is reported as success at once, otherwise failed commands and the second look decide; where the queried values read back, the exact report of `ReportsIff`; with quotable leftovers, on every console that obeys, success iff nothing was ambiguous or everything else was in place |
| MeshctlApply.ReportsIff | crates/mjolnir-meshctl/src/main.rs:369-424 | the exact report, and what the router then holds: success iff all but the ambiguous was in place, or each resource is left one instance as desired and the leftovers' comments say removals that take all leftovers |
| MeshctlApply.QuotableReportsIff | crates/mjolnir-meshctl/src/main.rs:369-424 | the report of every console that obeys where the leftovers' comments are quotable |
| ApplyLimits.DuplicateIsHidden | crates/mjolnir-meshctl/src/main.rs:376-379 | duplicating one path of any converged router makes a conflict that every plan is empty on |
| ApplyLimits.ApplyCanHideConflict | crates/mjolnir-meshctl/src/main.rs:376-379 | for every subnet a router on which success is reported while a resource is ambiguous |
| ApplyLimits.UnreadableLeftoverStays | crates/mjolnir-meshctl/src/plan.rs:261-275 | a leftover whose comment holds the separator or a line feed is never read as it is; it stays unless another comment's filter takes it |
| ApplyLimits.SeparatorLeftoverStays | crates/mjolnir-meshctl/src/plan.rs:261-275 | a router with nothing ambiguous on which a leftover survives on every console that obeys |
| ApplyLimits.ForeignItemIsRemoved | crates/mjolnir-meshctl/src/apply.rs:79-87 | a tagged comment that names an untagged item for removal |
| ApplyLimits.DriftIsHidden | crates/mjolnir-meshctl/src/plan.rs:196-219 | a drifted value followed by the separator is read as converged |
| ApplyLimits.UnquotableLeftoverStays | crates/mjolnir-meshctl/src/main.rs:390-423 | a leftover with an unquotable comment whose removal is refused stays, and failure is reported |
| ApplyLimits.QuoteWidensRemoval | crates/mjolnir-meshctl/src/apply.rs:79-87 | on a readable router with nothing ambiguous, a leftover's comment that widens its removal to any filter, on every console that obeys |
| ApplyLimits.QuoteRemovesAll | crates/mjolnir-meshctl/src/apply.rs:79-87 | one comment whose removal takes every untagged item of the NAT path |
| ApplyLimits.OwnRuleIsDeleted | crates/mjolnir-meshctl/src/apply.rs:79-87 | on a readable router with nothing ambiguous and every resource fixable, a comment that makes the pass delete the rule it owns |
| ApplyLimits.SelfSweepingIsPruned | crates/mjolnir-meshctl/src/apply.rs:79-87 | unquotable comments that every console that obeys prunes, with all else as it should be |
| ApplyLimits.NatRuleIsDeleted | crates/mjolnir-meshctl/src/apply.rs:79-87 | such a comment on the NAT path of every subnet |
| ApplyLimits.NatSweepIsPruned | crates/mjolnir-meshctl/src/apply.rs:79-87 | and an unquotable one pruned there |

## Left out

- Networking, file and process I/O, UCI, netlink, SSH transport, logging and persistence: calls whose effects are outside the program.
- Signature checks, blake3, postcard, JSON and DNS wire encoding: taken as already decoded or as an arbitrary value; the subnet hash is any 64-bit number.
- The other gossip lanes (subnet-claim merge, service v2 merge, tombstone versus publish rules, FIB), `egress`, `roster`, cooldowns and node names: separate lanes or single-step logic that would only add easy members.
- `emit_liveness_beacon`: only bumps a counter and sends it.
- Concurrency between the daemon's tasks: each modelled operation is one atomic step, and no gossip lands between the snapshot and the insert of a claim.
- Claims.ClaimStore.ClaimAndPublish: the gateway is kept as the claimed network rather than its first address.
- Alloc.PickSubnet: target prefix 0 follows a build without overflow checks, where the 32-bit shift by 32 keeps its operand; a checked build panics there. A target above the base panics in the source and is a precondition here.
- Signalling.SignalingServer.Message: error texts, timestamps and the order of the peer list are not modelled, and room names are the non-empty ones the parser lets through. As the source's comments say of its runtime, a publish reaches every other subscriber and closing a socket ends its subscriptions; a send is never dropped.
- LaneSweep.SweepIsInvisible: says nothing once a removed name is published again, because how a publish merges with a missing entry belongs to the service lane; `touch` is used by the daemon only for the node itself and is not among the later arrivals.
- NameIngest.OneLiveNamePerKey: covers runs fed by local sweeps only; `RuleIffNeverDoubles` covers gossip.
- MeshDns.HandleQuery: covers the decision; TXT string encoding, truncation at 512 bytes and IPv6 answers are not modelled.
- Bootstrap.RankBootstrapCandidates: follows the code, which puts claim owners heard this run but absent from the address book in the last tier; the comment above the function lists them in the second.
- QueryText.BuildQueryScript: quotes texts without escaping, since property names need none; how RouterOS reads the script is given by `Eval`.
- MeshctlApply.Apply: how RouterOS executes `add`, `set`, `remove` and `find` is stated by the model. Of its console it is assumed that printable queries and commands are read as they stand; the exact results ask further that removals whose text is no printable command are refused, without which nothing can be promised (`UnsaidMayDoAnything`). A script prints its lines with carriage return and line feed and no noise; display fields of a change and the dry run are dropped; the subnet arrives parsed, and host addresses wrap at 32 bits as in a build without overflow checks.
- OnePass.OnePassConverges: asks that the queried values read back; `OnePassFixesIff`, `OnePassPrunesIff` and `OnePassSparesIff` say exactly what holds of any values.
- LeasedNames.TwoOwnersConverge: asks for one first claim per key and no tied records; `TwoKeysConvergeIffNoTenureTriple` is exact for two keys.
