# Verified models of garage

Models, with proofs, of six parts of the garage repository: the Kademlia routing
table and the iterative lookup of its DHT, the piece scheduler, the storage layer
with its progress tracking, the bencode codec, and the executor of the foreman build
tool.  `dafny verify dfyconfig.toml` checks everything.

| part | files |
|---|---|
| shared | `Common`, `Sorting` (stable sort by key, least elements, flattening) |
| routing table | `NodeIds`, `KBuckets`, `RoutingTrees`, `RoutingRuns`, `RoutingRefusals`, `RoutingTables` |
| lookup | `Lookups`, `LookupRuns`, `LookupPanics`, `LookupHistories` |
| piece scheduler | `Schedules`, `ScheduleEvents`, `ScheduleRuns`, `ScheduleWitnesses`, `ScheduleOwnership`, `ScheduleEquivalence`, `ScheduleHistories`, `SchedulePriorities`, `Scheduler` |
| storage | `Dimensions`, `Coordinates`, `Storages`, `StorageObjects`, `StorageContents`, `Progresses`, `Queues` |
| bencode | `Decimals`, `Bencode`, `BencodeLaws`, `BencodeRoundTrips`, `BencodeIdentity`, `BencodeGrammar`, `BencodeBuffers` |
| foreman | `BuildGraphs`, `BuildExecutors`, `BuildLoaders`, `BuildCommands`, `BuildWalks` |

Objects that the sources update in place are classes, and the loops of the sources are
loops; each is proved against specification functions or step relations over values,
and the laws are proved about those.  Sockets, files, clocks and hash functions are
parameters: the network is a finite map from contacts to answers together with an
arbitrary order of arrival, a file is its bytes, every callback takes its clock
reading, SHA-1 is an arbitrary function of bytes, and `when` is an arbitrary pure
predicate.  Where the standard library leaves an order open (binary search among equal
keys, iteration of hash sets), the model leaves it open too.

The main results, in the terms of the system:

* After every run of table operations, `get_closest_with_limit` returns the nearest of
  all stored contacts, although it tracks one bit index for a whole stack.  No run panics
  exactly when buckets hold at least three.  Whether a candidate is refused depends on the
  stored contacts alone, not on the tree.
* A lookup ends whatever the network answers and in whatever order; each round asks the
  nearest it has heard of, and the closest of exactly those that answered are returned.
  Whoever a round left out is farther than all of these if everybody asked in it answered.
  The two panics are characterised exactly.
* The scheduler's local repairs are enough: no event leaves a pair assignable that was
  not, except a raised limit, and exactly then when a pair waited for nothing else.  So
  assignments stay maximal up to expired backoffs in every run that calls `schedule`
  after raising limits, as the program does.  What is scheduled, owned, backed off and
  marked is told from the events of the run.  Scheduling all peers is scheduling all
  pieces with ties broken alike.
* Several files, empty ones included, behave as one flat file in every run of the
  storage that is opened over those that are not empty, and every byte read is the one
  written last.  Progress is exact set subtraction, and credits are exact first
  deliveries.
* The bencode reader reads exactly a grammar.  Decoding is local, prefix-free and inverse
  to encoding, and reproduces its input exactly when that is strict and plain.
* The build executes exactly what the declared dependencies and reverse dependencies lead
  to, each build once and depth first, whatever the order of the command line;
  dependencies come first exactly when there is no cycle.

Properties that do not hold in general, each with an input on which it fails and its
exact condition:

| property | fails | holds exactly |
|---|---|---|
| no run of the table panics | `RoutingRuns.SafeExactlyFromThree` | `RoutingRuns.SafeExactlyFromThree` |
| no good node is found twice | `LookupPanics.TwoFacedFails` | `LookupPanics.DuplicateExactlyWhenAmbiguous` |
| no token is missing | `LookupPanics.PeersOnlyFails` | `LookupPanics.TokenlessExactlyWhenOmitted` |
| the limits of the scheduler hold | `ScheduleWitnesses.AssignBreaksTheLimit`, `ScheduleWitnesses.LoweringBreaksTheLimit` | `ScheduleRuns.StepLimits`, `ScheduleRuns.RunWithinLimits` |
| an event frees no pair | `ScheduleWitnesses.RaisingStrandsAPair` | `ScheduleEvents.StepNoNew`, `ScheduleEvents.AlmostMaximalIsKept` |
| assigned pieces are owned | `ScheduleOwnership.NotAlwaysOwned` | `ScheduleOwnership.OwnsExactly`, `ScheduleOwnership.RunOwns` |
| all peers or all pieces, the same | `ScheduleEquivalence.TiesTellThemApart` | `ScheduleEquivalence.PeersExactly` |
| re-encoding gives the same bytes | `BencodeIdentity.NotAlwaysWrittenBack` | `BencodeIdentity.WritesBackExactly` |
| dependencies are executed first | `BuildExecutors.CyclesBreakTheOrder` | `BuildExecutors.DependenciesFirstExactly` |

## Model

| member | source | states |
|---|---|---|
| NodeIds.DistanceOrderIsLexicographic | rust/bittorrent/dht/src/lib.rs:83-127 | comparing two XOR distances as 160-bit numbers is the derived comparison of the bit arrays, both ways |
| NodeIds.DistanceIsUnidirectional | rust/bittorrent/dht/src/lookup.rs:65-67 | two ids at the same distance from a target are the same id, which is why a distance may be a map key |
| NodeIds.CloserAtBit | rust/bittorrent/dht/src/lib.rs:120-127 | of two ids that part at a bit, the one that takes the target's bit is closer, whatever the bits before and after |
| NodeIds.IdsUnderPrefix | rust/bittorrent/dht/src/routing.rs:131-141 | at most 2^(160-d) distinct ids share a prefix of d bits |
| KBuckets.KBucket.FindById | rust/bittorrent/dht/src/kbucket.rs:49-56 | the index of the first item with the id, none exactly when no item has it |
| KBuckets.KBucket.SearchByLastSeen | rust/bittorrent/dht/src/kbucket.rs:81-87 | a place that keeps the items ascending by time last seen; among equal times any such place |
| KBuckets.KBucket.Insert | rust/bittorrent/dht/src/kbucket.rs:58-90 | a full bucket refuses the candidate and stays as it is, even if it knows the id; otherwise the incumbent of the same id gives way and the later of the two times is stored in order |
| KBuckets.StoredKeeps | rust/bittorrent/dht/src/kbucket.rs:58-90 | storing keeps capacity, distinct ids and the order, and turns the set of items into: all others plus the candidate, its time never moving back |
| KBuckets.KBucket.MustInsert | rust/bittorrent/dht/src/kbucket.rs:92-99 | evicts exactly as many of the least recently seen items as make room for one, then stores |
| KBuckets.KBucket.Remove | rust/bittorrent/dht/src/kbucket.rs:101-103 | takes out and returns the one item of that id, if any; everything else stays in order |
| KBuckets.KBucket.Split | rust/bittorrent/dht/src/kbucket.rs:36-47 | empties the bucket into two valid ones by one bit of the id, order kept |
| KBuckets.WithBitPartition | rust/bittorrent/dht/src/kbucket.rs:36-47 | a split neither loses nor duplicates an item |
| KBuckets.WithBitKeeps | rust/bittorrent/dht/src/kbucket.rs:36-47 | each half keeps distinct ids and the order by time last seen |
| RoutingTrees.OneBranchPerDepth | rust/bittorrent/dht/src/routing.rs:174-199 | in a tree that satisfies the invariant, a branch has at most one branch for a child |
| RoutingTrees.CrowdedLeafIsShallow | rust/bittorrent/dht/src/routing.rs:90-141 | a leaf with three contacts or more is at least two bits away from the end of an id |
| RoutingTrees.SplitWellFormed | rust/bittorrent/dht/src/routing.rs:201-209 | splitting a full leaf keeps the invariant, moves the permission to split to the half of our own id, and keeps every contact |
| RoutingTrees.WellFormedRoutes | rust/bittorrent/dht/src/routing.rs:127-144 | in a tree that satisfies the invariant every id reaches a leaf before its bits run out |
| RoutingTrees.GrowWellFormed | rust/bittorrent/dht/src/routing.rs:90-110 | all the splits one insertion makes stay within the bits of an id, keep the invariant and keep every contact |
| RoutingTrees.GrowEnds | rust/bittorrent/dht/src/routing.rs:90-110 | after these splits the id's leaf has room or may not split |
| RoutingTrees.PutElements | rust/bittorrent/dht/src/routing.rs:112-120 | replacing one leaf changes exactly the contacts under the leaf's prefix |
| RoutingRuns.InsertConserves | rust/bittorrent/dht/src/routing.rs:88-110 | Ok: the old contacts without the candidate's id plus the candidate, time not moving back; Err: nothing stored changes, however many splits were made, and the contacts returned are those of the full, unsplittable leaf the candidate routes to |
| RoutingRuns.MustInsertConserves | rust/bittorrent/dht/src/routing.rs:112-115 | always stores; from a full leaf it drops the contact seen longest ago and nothing else |
| RoutingRuns.RemoveConserves | rust/bittorrent/dht/src/routing.rs:117-120 | the stored contacts without that id, wherever it was; the removed item is returned |
| RoutingRuns.StepWellFormed | rust/bittorrent/dht/src/routing.rs:90-120 | each of the three operations keeps the whole invariant of the tree |
| RoutingRuns.RunWellFormed | rust/bittorrent/dht/src/routing.rs:40-121 | the invariant holds between all operations of every run: contacts under their leaf's prefix, branches only towards our own id, capacity, distinct ids, order |
| RoutingRuns.WellFormedNeverPanics | rust/bittorrent/dht/src/routing.rs:90-144 | no operation on such a tree reaches the panic of the traversal, the last index or the end of insert's loop |
| RoutingRuns.SafeExactlyFromThree | rust/bittorrent/dht/src/routing.rs:90-144 | no run ever panics if and only if the bucket size is at least three; for sizes 0, 1 and 2 a panicking run is given |
| RoutingRefusals.InsertRefusedExactly | rust/bittorrent/dht/src/routing.rs:90-110 | told from the stored contacts alone: a candidate is refused if and only if it is not our own id and a whole bucket of stored contacts agrees with it on one bit more than we do |
| RoutingRefusals.OnlyContactsMatter | rust/bittorrent/dht/src/routing.rs:90-110 | two runs that have stored the same contacts, whatever trees they built, accept and refuse the same candidates |
| RoutingRefusals.SplitsOnlyFull | rust/bittorrent/dht/src/routing.rs:92-108 | an insertion splits no leaf that has room: wherever it leaves a new branch, at least a whole bucket of stored contacts shares that prefix |
| RoutingTables.PrefixesPartition | rust/bittorrent/dht/src/routing.rs:52-71 | the prefixes of the leaves partition the ids: exactly one of them begins a given id |
| RoutingTables.BucketsHoldTheirPrefix | rust/bittorrent/dht/src/routing.rs:52-71 | each bucket is valid and holds exactly the stored items under its prefix |
| RoutingTables.BucketsHoldAll | rust/bittorrent/dht/src/routing.rs:52-71 | the buckets together hold exactly what is stored |
| RoutingTables.BucketsInOrder | rust/bittorrent/dht/src/routing.rs:52-71 | buckets come in descending order of their prefixes |
| RoutingTables.SplittableCount | rust/bittorrent/dht/src/routing.rs:34-38 | exactly one leaf may split, the one our own id belongs to |
| RoutingTables.BlocksAreOrdered | rust/bittorrent/dht/src/routing.rs:182-192 | visiting the child of the target's bit first yields buckets so that all of an earlier one is closer than all of a later one |
| RoutingTables.PopBranch | rust/bittorrent/dht/src/routing.rs:178-192 | when a branch is popped, the one running index is its depth, and pushing its children keeps this and the visiting order |
| RoutingTables.CollectClosest | rust/bittorrent/dht/src/routing.rs:174-199 | the loop with one running index returns whole buckets in visiting order, enough for the limit or all of them |
| RoutingTables.EnoughBlocks | rust/bittorrent/dht/src/routing.rs:77-86 | sorting and truncating what the loop collected equals sorting and truncating all stored contacts |
| RoutingTables.ClosestIsClosest | rust/bittorrent/dht/src/routing.rs:77-86 | the answer is sorted by distance, has min(limit, number stored) contacts, and nothing left out is closer than anything in it |
| RoutingTables.EveryRunAnswersClosest | rust/bittorrent/dht/src/routing.rs:77-121 | after every run, for every target and limit, collecting, sorting and truncating answers as sorting everything does, and exactly one leaf may split |
| RoutingTables.EveryRunReturnsNearest | rust/bittorrent/dht/src/routing.rs:73-86 | told from what is stored: the answer is the nearest stored contacts, the nearest first, and whoever is left out is farther than all of them while the limit is met |
| RoutingTables.InsertIntoLeaf | rust/bittorrent/dht/src/routing.rs:93-101 | one turn of insert's loop: stored if there was room, refused with the full bucket if it may not split, else split at this bit |
| RoutingTables.RoutingTable.constructor | rust/bittorrent/dht/src/routing.rs:45-50 | for any bucket size the empty table, one leaf that may split, which is the start of every run; from size three on it satisfies the invariant |
| RoutingTables.RoutingTable.Traverse | rust/bittorrent/dht/src/routing.rs:127-144 | the leaf of an id and its depth, which is below 160 |
| RoutingTables.RoutingTable.Insert | rust/bittorrent/dht/src/routing.rs:90-110 | the loop makes exactly the specified step and keeps the invariant |
| RoutingTables.RoutingTable.MustInsert | rust/bittorrent/dht/src/routing.rs:112-115 | makes exactly the specified step and keeps the invariant |
| RoutingTables.RoutingTable.Remove | rust/bittorrent/dht/src/routing.rs:117-120 | makes exactly the specified step and keeps the invariant |
| RoutingTables.RoutingTable.GetClosestWithLimit | rust/bittorrent/dht/src/routing.rs:77-86 | equals sorting all stored contacts by distance and truncating |
| RoutingTables.RoutingTable.Iter | rust/bittorrent/dht/src/routing.rs:52-71 | yields every bucket with its prefix, left to right |
| Lookups.UpsertElems | rust/bittorrent/dht/src/lookup.rs:65-74 | inserting into a map keyed by distance replaces the entry of the same id and no other |
| Lookups.StrictIsUnique | rust/bittorrent/dht/src/lookup.rs:65-74 | the values of such a map in key order are determined by which they are |
| Lookups.ProcessKeeps | rust/bittorrent/dht/src/lookup.rs:103-125 | handling one answer keeps: good nodes, dropped nodes, peers and announce target are those of the answers handled; the panic on a duplicate good node means an id with two endpoints, the one on a token a reply with peers and none |
| Lookups.ProcessAllKeeps | rust/bittorrent/dht/src/lookup.rs:103-125 | the same for all answers of a round in any order of arrival |
| Lookups.OrderIsIrrelevant | rust/bittorrent/dht/src/lookup.rs:103-125 | with one endpoint per id and a token with all peers, the state after a round is the same for any two orders of arrival |
| LookupRuns.BatchProperties | rust/bittorrent/dht/src/lookup.rs:82-90 | a round asks as many of the candidates not asked before as there are, up to the limit, each once, and every one of them is nearer than every one left out |
| LookupRuns.RoundInAnyOrder | rust/bittorrent/dht/src/lookup.rs:82-133 | a round in any order keeps the invariant, and changes the closest nodes only if fewer contacts are left to ask |
| LookupRuns.LookupKeeps | rust/bittorrent/dht/src/lookup.rs:60-136 | the lookup ends for any finite network and any answers, with the invariant or with the assumption that was broken |
| LookupRuns.OutcomeKeeps | rust/bittorrent/dht/src/lookup.rs:60-136 | however the answers of each round arrive, every way a lookup can go ends with the invariant or with the assumption that was broken |
| LookupRuns.ExpectedIsOutcome | rust/bittorrent/dht/src/lookup.rs:60-136 | answers arriving in question order are one of these ways |
| LookupHistories.EveryLookupHasAHistory | rust/bittorrent/dht/src/lookup.rs:60-136 | every lookup that does not panic told from the network alone: its first round hears of the initial contacts and each further one of those named in the round before, one per id; each asks the nearest not asked before; it goes on exactly while the closest responders change and somebody was named; it reports those that failed, all peers it was told of and the nearest contact that offered peers |
| LookupHistories.LeftOutIsFarther | rust/bittorrent/dht/src/lookup.rs:82-133 | if everybody asked in some round answered, the candidates that round left out are farther than everything the lookup returns |
| LookupHistories.NoNewsIsFinal | rust/bittorrent/dht/src/lookup.rs:127-132 | a last round without news, in which somebody answered, has left out nobody nearer than what is returned, and as many are returned as were wanted |
| LookupRuns.PeerLookuper.ProcessResponse | rust/bittorrent/dht/src/lookup.rs:289-304 | collects the peers, moves the announce target to a nearer responder with peers, and panics exactly when that one gave no token |
| LookupRuns.CollectAnswers | rust/bittorrent/dht/src/lookup.rs:103-125 | collecting answers in an arbitrary order handles each asked contact once, or stops at a panic |
| LookupRuns.RoundEnds | rust/bittorrent/dht/src/lookup.rs:103-125 | a completed round gives the state of the fixed order when the network is clean |
| LookupRuns.Lookup | rust/bittorrent/dht/src/lookup.rs:60-136 | terminates in one of the ways a lookup can go; asks nobody twice; returns the limit closest of exactly those that answered, and as announce target the nearest responder with peers; panics only if an id has two endpoints or peers come without a token; otherwise independent of arrival order |
| LookupPanics.TwoFacedFails | rust/bittorrent/dht/src/lookup.rs:114 | a network in which two contacts share an id, on which the assertion fails |
| LookupPanics.DuplicateExactlyWhenAmbiguous | rust/bittorrent/dht/src/lookup.rs:114 | over a set of contacts the duplicate-good-node assertion holds for all answers, all initial contacts and all orders of arrival if and only if an id determines its endpoint, or the limit is 0 |
| LookupPanics.PeersOnlyFails | rust/bittorrent/dht/src/lookup.rs:289-304 | a lookup started at a contact that replies with peers and no token panics |
| LookupPanics.TokenlessExactlyWhenOmitted | rust/bittorrent/dht/src/lookup.rs:289-304 | over a set of contacts some of which may omit the token, no lookup in any order of arrival panics on it if and only if nobody may, or the limit is 0 |
| LookupPanics.TokenPanicExactly | rust/bittorrent/dht/src/lookup.rs:296-302 | within one round some order of arrival panics on the token if and only if some asked contact returns peers without token and is nearer than the target at the start of the round |
| Schedules.ChosenPiecesProperties | rust/bittorrent/transceiver/src/schedule.rs:133-148 | a peer is given distinct, assignable, scheduled pieces, never more than its limit leaves |
| Schedules.SchedulePeerClears | rust/bittorrent/transceiver/src/schedule.rs:133-148 | after filling up a peer no piece is assignable to it |
| Schedules.SchedulePeersClear | rust/bittorrent/transceiver/src/schedule.rs:127-131 | after filling up several peers nothing is assignable to any of them, and assignments only grew |
| Schedules.SchedulePieceClears | rust/bittorrent/transceiver/src/schedule.rs:156-174 | after filling up a piece it is assignable to nobody, and assignments only grew |
| Schedules.SchedulePiecesClear | rust/bittorrent/transceiver/src/schedule.rs:150-154 | the same for several pieces |
| ScheduleEvents.DelayGrows | rust/bittorrent/transceiver/src/schedule.rs:405-413 | the delay never shrinks with another error and never exceeds an hour |
| ScheduleEvents.DelayDoubles | rust/bittorrent/transceiver/src/schedule.rs:405-413 | the first delay is the base, each further one twice the one before, up to an hour, until the 32-bit factor saturates |
| ScheduleEvents.SortScheduleIsStable | rust/bittorrent/transceiver/src/schedule.rs:87-94 | sorting the schedule by rarity keeps equally rare pieces in their order |
| ScheduleEvents.ScheduleMaximal | rust/bittorrent/transceiver/src/schedule.rs:121-125 | schedule leaves no assignable pair of peer and scheduled piece |
| ScheduleEvents.ScheduleIdempotent | rust/bittorrent/transceiver/src/schedule.rs:121-125 | on such an assignment schedule changes nothing at all |
| ScheduleEvents.ScheduleAllPiecesMaximal | rust/bittorrent/transceiver/src/schedule.rs:121-125 | scheduling all pieces instead of all peers leaves no assignable pair either |
| ScheduleEvents.StopNoNew | rust/bittorrent/transceiver/src/schedule.rs:308-318 | after a peer stops, rescheduling only its pieces leaves no pair assignable that was not |
| ScheduleEvents.PossessNoNew | rust/bittorrent/transceiver/src/schedule.rs:322-361 | after a possession, rescheduling only that peer leaves no new assignable pair |
| ScheduleEvents.ErrorNoNew | rust/bittorrent/transceiver/src/schedule.rs:363-376 | after an error, rescheduling only that peer and that piece leaves no new assignable pair |
| ScheduleEvents.VerifiedNoNew | rust/bittorrent/transceiver/src/schedule.rs:378-390 | after a verification, rescheduling only the piece's peers leaves no new assignable pair |
| ScheduleEvents.PurgeNoNew | rust/bittorrent/transceiver/src/schedule.rs:287-297 | after expired backoffs are removed, a pair still assignable was so before and never had a backoff |
| ScheduleEvents.StepNoNew | rust/bittorrent/transceiver/src/schedule.rs:247-391 | an event leaves a pair newly assignable if and only if it raises a limit and some pair without pending backoff waited for nothing else |
| ScheduleEvents.MaximalIsKept | rust/bittorrent/transceiver/src/schedule.rs:247-391 | if no pair is assignable at the clock reading of an event, none is after it if and only if the event frees none in this way |
| ScheduleEvents.AlmostMaximalIsKept | rust/bittorrent/transceiver/src/schedule.rs:247-391 | that all assignable pairs have an expired backoff is kept if and only if no pair without a backoff is freed |
| ScheduleEvents.RemoveExpiredMaximal | rust/bittorrent/transceiver/src/schedule.rs:287-297 | if every assignable pair had an expired backoff, none is assignable after expired backoffs are removed |
| ScheduleEvents.TimePasses | rust/bittorrent/transceiver/src/schedule.rs:401-403 | as time passes only pairs with a backoff become assignable |
| ScheduleEvents.MaximalUntilNextDeadline | rust/bittorrent/transceiver/src/schedule.rs:279-285 | a maximal assignment stays maximal until the nearest deadline |
| ScheduleRuns.NewStateValid | rust/bittorrent/transceiver/src/schedule.rs:55-71 | a new scheduler satisfies the invariant, schedules exactly the pieces we lack, ascending, and has nothing to assign |
| ScheduleRuns.StepValid | rust/bittorrent/transceiver/src/schedule.rs:87-391 | every event keeps: assigned pieces are scheduled, the schedule has no duplicates and is rarest-first |
| ScheduleRuns.StepLimits | rust/bittorrent/transceiver/src/schedule.rs:133-269 | an event keeps the per-peer and the per-piece limit if and only if it is neither the explicit assignment of a new pair whose peer or piece is at its limit nor a limit set below a count |
| ScheduleRuns.RunValid | rust/bittorrent/transceiver/src/schedule.rs:54-391 | the invariant holds after every event of every run, so the position unwrap and the insert assertions never fail |
| ScheduleRuns.RunWithinLimits | rust/bittorrent/transceiver/src/schedule.rs:54-391 | both limits have held throughout a run if and only if it has no such event |
| ScheduleWitnesses.AssignBreaksTheLimit | rust/bittorrent/transceiver/src/schedule.rs:247-259 | a second explicit assignment under a limit of one breaks it |
| ScheduleWitnesses.LoweringBreaksTheLimit | rust/bittorrent/transceiver/src/schedule.rs:261-269 | a limit set below a count is broken |
| ScheduleRuns.RunAlmostMaximal | rust/bittorrent/transceiver/src/schedule.rs:54-391 | in every run whose events that free a pair without a backoff have been followed by schedule, at every time each assignable pair has an expired backoff, and none is assignable right after schedule or the removal of expired backoffs |
| ScheduleRuns.EndgameSettles | rust/bittorrent/transceiver/src/actor/download.rs:95-109 | raising both limits and then scheduling, as is done on entering the endgame, leaves nothing to be followed up |
| ScheduleHistories.StepAssigns | rust/bittorrent/transceiver/src/schedule.rs:303-391 | every event is one edit followed by new assignments, each of a scheduled and owned piece without pending backoff unless explicit, and exactly the peers that got one are marked |
| ScheduleHistories.StepEnds | rust/bittorrent/transceiver/src/schedule.rs:308-390 | an assignment ends exactly when its peer stops, its piece is verified or its response fails; only without any delay is the same pair assigned again at once |
| ScheduleHistories.ScheduledExactly | rust/bittorrent/transceiver/src/schedule.rs:378-390 | in every run a piece is scheduled if and only if we lacked it at the start and it has not been verified since |
| ScheduleHistories.OwnedExactly | rust/bittorrent/transceiver/src/schedule.rs:322-361 | in every run a peer is known to own a piece if and only if it announced so and has neither left nor announced otherwise since |
| ScheduleHistories.UpdatedExactly | rust/bittorrent/transceiver/src/schedule.rs:271-273 | in every run a peer is marked if and only if it was given a piece since the marks were last taken |
| ScheduleHistories.BackoffsExactly | rust/bittorrent/transceiver/src/schedule.rs:363-413 | in every run a pair has a backoff if and only if it failed and neither its peer, its piece nor the expired backoffs were removed since; it counts the failures and ends the doubled delay after the last one |
| SchedulePriorities.RarestFirst | rust/bittorrent/transceiver/src/schedule.rs:84-94 | in every run the schedule lists pieces by ascending number of owners |
| SchedulePriorities.EarliestFirst | rust/bittorrent/transceiver/src/schedule.rs:133-149 | what a peer is given comes earlier in the schedule than what it could be given and is not, which happens only at its limit |
| SchedulePriorities.FewestFirst | rust/bittorrent/transceiver/src/schedule.rs:157-174 | a piece goes to peers that own no more pieces than those it could go to and does not, which happens only at its limit |
| SchedulePriorities.PoorestFirst | rust/bittorrent/transceiver/src/schedule.rs:127-131 | of several peers, one that owns fewer pieces has got all it gets before one that owns more gets anything |
| ScheduleWitnesses.RaisingStrandsAPair | rust/bittorrent/transceiver/src/schedule.rs:261-269 | raising a limit of one to two while a peer owns two pieces leaves the second assignable at all times, with no backoff to wait for |
| ScheduleEquivalence.RowsAreColumns | rust/bittorrent/transceiver/src/schedule.rs:127-174 | going over all pairs peer by peer or piece by piece, assigning each that may be, gives the same state |
| ScheduleEquivalence.PeersExactly | rust/bittorrent/transceiver/src/schedule.rs:121-174 | the outcomes of scheduling all peers are exactly those of scheduling all pieces with ties broken in the same way for every piece |
| ScheduleEquivalence.PeersToPieces | rust/bittorrent/transceiver/src/schedule.rs:121-125 | whatever scheduling all peers does, scheduling all pieces can do |
| ScheduleEquivalence.PeersOrPieces | rust/bittorrent/transceiver/src/schedule.rs:121-125 | if no two owners own equally many pieces, both have the same outcomes |
| ScheduleEquivalence.TiesTellThemApart | rust/bittorrent/transceiver/src/schedule.rs:121-125 | a state with a tie and an outcome that scheduling all pieces has and scheduling all peers has not |
| ScheduleOwnership.OwnsExactly | rust/bittorrent/transceiver/src/schedule.rs:327-390 | while peers own all pieces assigned to them, an event keeps this if and only if it neither assigns a piece to a peer that lacks it nor announces that a peer lacks a piece assigned to it |
| ScheduleOwnership.RunOwns | rust/bittorrent/transceiver/src/schedule.rs:420-437 | assigned pieces have been owned throughout a run if and only if it has no such event |
| ScheduleOwnership.NotAlwaysOwned | rust/bittorrent/transceiver/src/schedule.rs:247-259 | an explicit assignment after which an assigned piece is not owned |
| Scheduler.InScheduleOrder | rust/bittorrent/transceiver/src/schedule.rs:225-232 | sorting a peer's pieces by position is reading them off the schedule |
| Scheduler.Scheduler.constructor | rust/bittorrent/transceiver/src/schedule.rs:55-71 | schedules exactly the pieces we lack, in ascending order, with nothing owned, assigned or marked |
| Scheduler.Scheduler.SortPeers | rust/bittorrent/transceiver/src/schedule.rs:96-108 | the given peers by ascending ownership, equal ones in any order |
| Scheduler.Scheduler.SortPieces | rust/bittorrent/transceiver/src/schedule.rs:110-119 | the scheduled ones among the pieces, in schedule order |
| Scheduler.Scheduler.Assignments | rust/bittorrent/transceiver/src/schedule.rs:225-232 | none for a peer without pieces, else its pieces in schedule order; the unwrap is safe |
| Scheduler.Scheduler.ChoosePieces | rust/bittorrent/transceiver/src/schedule.rs:134-143 | the first assignable pieces of the schedule, up to what the peer's limit leaves |
| Scheduler.Scheduler.InsertPieces | rust/bittorrent/transceiver/src/schedule.rs:144-147 | adds exactly these pairs; the assertion that each is new holds; the peer is marked if there was one |
| Scheduler.Scheduler.InsertPeers | rust/bittorrent/transceiver/src/schedule.rs:170-173 | adds exactly these pairs; the assertion that each is new holds; the peers are marked |
| Scheduler.Scheduler.SchedulePeer | rust/bittorrent/transceiver/src/schedule.rs:133-148 | the specified filling up of a peer |
| Scheduler.Scheduler.SchedulePeers | rust/bittorrent/transceiver/src/schedule.rs:127-131 | the peers filled up by ascending ownership |
| Scheduler.Scheduler.SchedulePiece | rust/bittorrent/transceiver/src/schedule.rs:156-174 | the piece given to its assignable owners by ascending ownership, up to the limit |
| Scheduler.Scheduler.SchedulePieces | rust/bittorrent/transceiver/src/schedule.rs:150-154 | the scheduled ones among the pieces filled up in schedule order |
| Scheduler.Scheduler.ScheduleAll | rust/bittorrent/transceiver/src/schedule.rs:121-125 | leaves no assignable pair |
| Scheduler.Scheduler.NotifyPeerStop | rust/bittorrent/transceiver/src/schedule.rs:308-318 | makes the specified step and keeps the invariant |
| Scheduler.Scheduler.NotifyPossession | rust/bittorrent/transceiver/src/schedule.rs:322-361 | refuses an impossible bitfield or piece and changes nothing, else makes the specified step |
| Scheduler.Scheduler.NotifyResponseError | rust/bittorrent/transceiver/src/schedule.rs:363-376 | nothing for a pair that is not assigned, else the specified step with the grown backoff |
| Scheduler.Scheduler.NotifyVerified | rust/bittorrent/transceiver/src/schedule.rs:378-390 | nothing for an unscheduled piece, else the specified step |
| Scheduler.Scheduler.AssignTo | rust/bittorrent/transceiver/src/schedule.rs:247-259 | assigns a scheduled piece past all limits, and does nothing for any other |
| Scheduler.Scheduler.SetMaxAssignments | rust/bittorrent/transceiver/src/schedule.rs:261-264 | changes the limit and nothing else |
| Scheduler.Scheduler.SetMaxReplicates | rust/bittorrent/transceiver/src/schedule.rs:266-269 | changes the limit and nothing else |
| Scheduler.Scheduler.TakeUpdated | rust/bittorrent/transceiver/src/schedule.rs:271-273 | returns the marked peers and clears them |
| Scheduler.Scheduler.RemoveExpiredBackoffs | rust/bittorrent/transceiver/src/schedule.rs:287-297 | makes the specified step; leaves no assignable pair if every one had an expired backoff |
| Scheduler.Scheduler.NextBackoff | rust/bittorrent/transceiver/src/schedule.rs:279-285 | the least deadline that has not passed, none exactly when there is none |
| Dimensions.OrderIsScalarOrder | rust/bittorrent/base/src/lib.rs:147-148 | the derived order of block offsets is the order of the positions they name, and different offsets name different positions |
| Dimensions.AddScalarAdds | rust/bittorrent/base/src/lib.rs:198-210 | advancing an offset is addition of positions |
| Dimensions.PieceInside | rust/bittorrent/base/src/lib.rs:283-296 | every piece has a positive size and lies inside the torrent |
| Dimensions.PiecesTile | rust/bittorrent/base/src/lib.rs:283-296 | exactly the pieces below the number of pieces have a size, each ends where the next begins and the last one at the end |
| Dimensions.CheckedBlockInside | rust/bittorrent/base/src/lib.rs:275-281 | a block that passes the check lies inside the torrent |
| Dimensions.CheckBlockDescExactly | rust/bittorrent/base/src/lib.rs:271-281 | a block passes if and only if it is small enough and inside one piece, or is the empty block at the very end |
| Dimensions.BlockDescs | rust/bittorrent/base/src/lib.rs:298-313 | the loop lists the blocks of a piece |
| Dimensions.BlocksTilePiece | rust/bittorrent/base/src/lib.rs:298-313 | they pass the check, are not empty, all but the last have the full block size, and they follow one another without gap to the end of the piece |
| Coordinates.NewCoordSys | rust/bittorrent/storage/src/coord.rs:22-45 | refuses an empty file and an empty list, each exactly then; else the ends name the prefix sums of the sizes |
| Coordinates.FileOfIsUnique | rust/bittorrent/storage/src/coord.rs:93-114 | exactly one file holds a given byte of the torrent |
| Coordinates.SearchFile | rust/bittorrent/storage/src/coord.rs:98-101 | the number of files that end at or before the offset |
| Coordinates.ToFileOffset | rust/bittorrent/storage/src/coord.rs:93-114 | the file that holds the byte and the offset in it; none exactly at the end of the torrent |
| Coordinates.NextSegment | rust/bittorrent/storage/src/coord.rs:66-79 | the unwrap is safe, and the segment is the part of the block in the file of its first byte |
| Coordinates.CollectSegments | rust/bittorrent/storage/src/coord.rs:66-79 | the iterator ends and yields the specified segments |
| Coordinates.ToFileDescs | rust/bittorrent/storage/src/coord.rs:59-80 | refuses exactly the blocks that fail the check; else yields the specified segments |
| Coordinates.SegmentsTile | rust/bittorrent/storage/src/coord.rs:59-80 | the segments are not empty, lie inside their files, are consecutive in torrent order and sum to the block size |
| Coordinates.SegmentsInLaterFiles | rust/bittorrent/storage/src/coord.rs:59-80 | each segment lies in a later file than the one before, so none is cut without need |
| Storages.SegmentIsFlat | rust/bittorrent/storage/src/file.rs:84-94 | a segment of a file is a slice of the torrent |
| Storages.WriteSegmentIsFlat | rust/bittorrent/storage/src/file.rs:96-106 | writing a segment of a file is splicing the torrent |
| Storages.BlockReadIsFlat | rust/bittorrent/storage/src/file.rs:84-94 | reading a block segment by segment is reading a slice of the torrent |
| Storages.BlockWriteIsFlat | rust/bittorrent/storage/src/file.rs:96-106 | writing a block segment by segment is splicing the torrent; all files keep their sizes |
| Storages.EmptyFilesDoNotMatter | rust/bittorrent/storage/src/file.rs:33-47 | leaving out the files of size zero does not change the torrent |
| Storages.EmptyFilesNeverMatter | rust/bittorrent/storage/src/file.rs:33-47 | whatever is written to the files in use, all files together, empty ones included, still spell what those do |
| Storages.WithEmptySizes | rust/bittorrent/storage/src/file.rs:33-47 | putting the empty files back gives every file its declared size |
| StorageObjects.FileStorage.Read | rust/bittorrent/storage/src/file.rs:84-94 | the answer of the flat array, also for a refused block |
| StorageObjects.FileStorage.Write | rust/bittorrent/storage/src/file.rs:96-106 | the files spell the flat array after the write, the buffer is left past the block; a refused block changes nothing |
| StorageObjects.FileStorage.Verify | rust/bittorrent/storage/src/file.rs:73-82 | compares the hash of exactly the bytes of the piece |
| StorageObjects.FileStorage.Scan | rust/bittorrent/storage/src/file.rs:64-71 | one bit for each piece, set exactly when its hash matches |
| StorageObjects.SingleStorage.Prepare | rust/bittorrent/storage/src/single.rs:42-51 | moves the cursor to the block; at the very end of the torrent there is nowhere to seek and the block is empty |
| StorageObjects.SingleStorage.Read | rust/bittorrent/storage/src/single.rs:91-95 | the answer of the flat array |
| StorageObjects.SingleStorage.Write | rust/bittorrent/storage/src/single.rs:97-101 | the flat array after the write |
| StorageObjects.SingleStorage.Verify | rust/bittorrent/storage/src/single.rs:81-89 | compares the hash of exactly the bytes of the piece, through an empty block at its start |
| StorageObjects.SingleStorage.Scan | rust/bittorrent/storage/src/single.rs:63-79 | one seek is enough: each piece is hashed where the one before ended |
| StorageObjects.StepRefines | rust/bittorrent/storage/src/file.rs:62-107 | one read, write or verification on the files gives the answer of the flat array, and the files spell the new array |
| StorageObjects.FilesRefineFlat | rust/bittorrent/storage/src/file.rs:62-107 | over every run of reads, writes and verifications, accepted or refused, several files and one flat file give the same answers and end with the same bytes, and the files keep their sizes |
| StorageObjects.OpenedRefinesFlat | rust/bittorrent/storage/src/file.rs:27-107 | the same for any files, empty ones included: the runs use only those that are not empty, and all of them in order, the empty ones put back, keep their sizes and end up spelling the flat file |
| StorageContents.WrittenByte | rust/bittorrent/storage/src/file.rs:96-106 | byte by byte: inside an accepted block the bytes are those of the buffer, all others stay |
| StorageContents.OpenedAnswers | rust/bittorrent/storage/src/file.rs:62-107 | every run of the opened storage told from its operations: each byte read or hashed is the one written last, or the original one if none was, refused blocks give their error, and the same holds of all bytes in the end |
| StorageContents.ReadBack | rust/bittorrent/storage/src/file.rs:84-106 | reading a block that nobody wrote to since gives back what was written, whatever happened to other blocks |
| StorageContents.ReadUntouched | rust/bittorrent/storage/src/file.rs:84-94 | reading a block that nobody wrote to gives the original bytes |
| StorageContents.ScanFindsIntact | rust/bittorrent/storage/src/file.rs:64-82 | if the hashes are those of some contents and tell byte strings apart, a scan finds exactly the pieces that agree with these contents in every byte |
| StorageObjects.Open | rust/bittorrent/storage/src/file.rs:31-53 | a storage over the files that are not empty, in order, that spells the whole torrent; refused exactly when all are empty |
| Progresses.TotalCounts | rust/bittorrent/transceiver/src/progress.rs:80-82 | the sizes of the ranges add up to the number of bytes they denote |
| Progresses.CanonicalIsUnique | rust/bittorrent/transceiver/src/progress.rs:10-14 | sorted non-empty ranges with gaps are determined by the bytes they denote |
| Progresses.RemainderIs | rust/bittorrent/transceiver/src/progress.rs:73-78 | what is left of a range is set difference, in at most two sorted non-empty ranges |
| Progresses.HollowedSubtracts | rust/bittorrent/transceiver/src/progress.rs:41-71 | hollowing out a range is exact set subtraction and keeps the list sorted, disjoint and free of empty ranges |
| Progresses.HollowAt | rust/bittorrent/transceiver/src/progress.rs:44-69 | one turn of the loop replaces the range at the index by what is left of it and steps past that |
| Progresses.HollowOut | rust/bittorrent/transceiver/src/progress.rs:41-71 | the loop leaves exactly the bytes outside the range and returns how many it took out |
| Progresses.Progress.constructor | rust/bittorrent/transceiver/src/progress.rs:17-22 | the whole piece is missing |
| Progresses.Progress.Add | rust/bittorrent/transceiver/src/progress.rs:28-33 | takes out exactly the bytes of the block, wherever it lies, and returns how many were missing |
| Progresses.Progress.IsCompleted | rust/bittorrent/transceiver/src/progress.rs:24-26 | true exactly when no byte is missing |
| Queues.RunMissing | rust/bittorrent/transceiver/src/progress.rs:29-71 | after any blocks, of any size, order and overlap, what is missing is the piece without their union |
| Queues.CompletedExactly | rust/bittorrent/transceiver/src/progress.rs:24-26 | nothing is missing if and only if the blocks cover the piece |
| Queues.OnlyTheUnionMatters | rust/bittorrent/transceiver/src/progress.rs:41-71 | two histories with the same union leave the very same ranges |
| Queues.RunCredits | rust/bittorrent/transceiver/src/queue.rs:102-109 | a peer's credit is the number of bytes it was the first to deliver since it was last removed, with an entry exactly when that is not 0 |
| Queues.RunConserves | rust/bittorrent/transceiver/src/queue.rs:51-55 | in every run the credits, what is missing, and the bytes whose first deliverer was removed since add up to the piece size |
| Queues.NothingForfeited | rust/bittorrent/transceiver/src/queue.rs:102-109 | while no peer is removed the credits and what is missing add up to the piece size |
| Queues.RequestsSuffice | rust/bittorrent/transceiver/src/queue.rs:79-86 | once the blocks a queue starts out to request have arrived, in any order and among any others, the piece is complete |
| Queues.Queue.constructor | rust/bittorrent/transceiver/src/queue.rs:79-86 | the state of a run without events |
| Queues.Queue.AddProgress | rust/bittorrent/transceiver/src/queue.rs:101-109 | appends one event to the run and returns the number of bytes of the block that were missing |
| Queues.Queue.RemovePeer | rust/bittorrent/transceiver/src/queue.rs:53 | appends the removal to the run of this queue |
| Queues.QueueMap.constructor | rust/bittorrent/transceiver/src/queue.rs:33-38 | no queues |
| Queues.QueueMap.GetOrDefault | rust/bittorrent/transceiver/src/queue.rs:44-49 | the queue of the piece, a new one in the state of a run without events if there was none; other queues stay |
| Queues.QueueMap.RemovePeer | rust/bittorrent/transceiver/src/queue.rs:51-55 | appends the removal to the runs of all queues |
| Queues.QueueMap.Remove | rust/bittorrent/transceiver/src/queue.rs:58-62 | takes out the queue and returns the credits of its run |
| Queues.Queue.IsCompleted | rust/bittorrent/transceiver/src/queue.rs:97-99 | true exactly when the blocks received so far cover the piece |
| Decimals.UntilSplits | rust/g1/bytes/src/lib.rs:134-149 | the slice before the first delimiter, none exactly when there is no delimiter |
| Decimals.DigitsRead | rust/bittorrent/bencode/src/lib.rs:368-376 | printed decimals read back as the number and have no leading zero |
| Decimals.LengthRoundTrip | rust/bittorrent/bencode/src/lib.rs:309-333 | a printed 64-bit length parses back |
| Decimals.IntegerRoundTrip | rust/bittorrent/bencode/src/lib.rs:326-351 | a printed 64-bit signed integer, negative or not, parses back |
| Decimals.LengthTextExactly | rust/bittorrent/bencode/src/lib.rs:326-333 | a length that parses prints as the same text if and only if it has no plus and no leading zero |
| Decimals.IntegerTextExactly | rust/bittorrent/bencode/src/lib.rs:326-333 | an integer that parses prints as the same text if and only if it has no plus, no leading zero and is not a negative zero |
| BencodeLaws.DecodeSwap | rust/bittorrent/bencode/src/lib.rs:246-320 | a successful decoding looks only at what it consumes: with anything after that, the same value and exactly that tail |
| BencodeLaws.DecodeIsLocal | rust/bittorrent/bencode/src/lib.rs:246-320 | if b decodes with a tail, b followed by x decodes to the same value with that tail followed by x |
| BencodeLaws.WrongStaysWrong | rust/bittorrent/bencode/src/lib.rs:246-320 | any failure other than running out of input stays the same failure when more input follows |
| BencodeLaws.PrefixIsIncomplete | rust/bittorrent/bencode/src/lib.rs:246-320 | every proper prefix of what a decoding consumes is reported as incomplete |
| BencodeLaws.DecodedRaw | rust/bittorrent/bencode/src/lib.rs:460-469 | the raw slice of every list and dictionary, at any depth, decodes on its own to that node with nothing left |
| BencodeLaws.StrictIsLenient | rust/bittorrent/bencode/src/lib.rs:284-297 | whatever strict decoding accepts, lenient decoding reads as the same value, slices and tail |
| BencodeLaws.StrictRefusesOnlyOrder | rust/bittorrent/bencode/src/lib.rs:284-297 | strict and lenient decoding differ only where strict decoding reports a key that is not above the last |
| BencodeRoundTrips.InsertUpdates | rust/bittorrent/bencode/src/lib.rs:296 | inserting into the sorted entries is a map update and keeps the keys strictly increasing |
| BencodeRoundTrips.RoundTrip | rust/bittorrent/bencode/src/lib.rs:246-377 | decoding an encoded value, strictly or not, followed by anything, gives the value, each list and dictionary with its own encoding as raw slice, and exactly what followed |
| BencodeRoundTrips.WithRawIsSame | rust/bittorrent/bencode/src/lib.rs:471-489 | attaching raw slices does not change the owned value |
| BencodeRoundTrips.DecodedEncodable | rust/bittorrent/bencode/src/lib.rs:246-320 | whatever is decoded has 64-bit integers, sorted distinct keys and 64-bit lengths at every depth |
| BencodeRoundTrips.ReadWriteRead | rust/bittorrent/bencode/src/lib.rs:221-377 | whatever was decoded, even leniently, encodes to something that strict decoding accepts in full as the same value |
| BencodeGrammar.ReadsExactly | rust/bittorrent/bencode/src/lib.rs:246-333 | the reader reads exactly the grammar: a value and a rest are read if and only if the input is a text that spells the value, raw slices included, followed by the rest; of equal keys the last one counts |
| BencodeGrammar.StrictExactly | rust/bittorrent/bencode/src/lib.rs:287-296 | of a well-spelled text, which lenient reading accepts, strict reading accepts exactly the one in whose dictionaries the keys ascend as they stand |
| BencodeGrammar.LessIsLex | rust/bittorrent/bencode/src/lib.rs:287-296 | a key is smaller if and only if it is a proper prefix or has the smaller byte at the first difference |
| BencodeGrammar.ParsesLength | rust/bittorrent/bencode/src/lib.rs:326-333 | a text is a length if and only if it is digits, possibly after a plus, whose decimal value fits 64 bits |
| BencodeGrammar.ParsesInteger | rust/bittorrent/bencode/src/lib.rs:326-333 | a text is an integer if and only if it is digits, possibly after a sign, whose signed decimal value fits 64 bits |
| BencodeGrammar.WritesGrammar | rust/bittorrent/bencode/src/lib.rs:341-376 | what is written is spelled in the grammar, with ascending keys, and denotes the value |
| BencodeGrammar.TryFromExactly | rust/bittorrent/bencode/src/lib.rs:222-236 | a buffer is one value if and only if a text that spells the value begins it, and for strict reading is all of it |
| BencodeGrammar.BytesFail | rust/bittorrent/bencode/src/lib.rs:309-320 | a byte string is incomplete without a colon or with too few bytes after its length, and invalid when no length stands before the first colon |
| BencodeGrammar.IntegerFails | rust/bittorrent/bencode/src/lib.rs:256-266 | an integer is incomplete without its closing byte, and invalid when no integer stands before the first one |
| BencodeGrammar.OtherBytesFail | rust/bittorrent/bencode/src/lib.rs:252-304 | no value begins with any byte but a digit and the three letters |
| BencodeGrammar.OwnedIsPlain | rust/bittorrent/bencode/src/lib.rs:476-489 | an owned value carries no slices and is written like the borrowed one |
| BencodeIdentity.WritesBackExactly | rust/bittorrent/bencode/src/lib.rs:246-377 | a decoded value encodes to the very bytes consumed if and only if strict decoding accepts them and every number is in plain decimal |
| BencodeIdentity.NotAlwaysWrittenBack | rust/bittorrent/bencode/src/lib.rs:326-333 | the accepted input i00e, which is not reproduced |
| BencodeBuffers.Buffer.GetSliceUntilStrip | rust/g1/bytes/src/lib.rs:134-175 | the loop finds the slice before the first delimiter and moves past it; without one nothing moves |
| BencodeBuffers.ReadByteString | rust/bittorrent/bencode/src/lib.rs:309-320 | the bytes after the length, or one of three failures with the offending text; the buffer moves past what was read |
| BencodeBuffers.ReadInteger | rust/bittorrent/bencode/src/lib.rs:256-266 | the integer before the closing byte, or one of two failures with the offending text |
| BencodeBuffers.ReadItems | rust/bittorrent/bencode/src/lib.rs:267-274 | the loop of a list collects the values up to the closing byte in order |
| BencodeBuffers.ReadEntries | rust/bittorrent/bencode/src/lib.rs:280-298 | the loop of a dictionary puts each pair into the map and, when strict, refuses a key that is not above the greatest so far, naming both |
| BencodeBuffers.Read | rust/bittorrent/bencode/src/lib.rs:246-306 | one value of the grammar, raw slices included; the buffer moves exactly past it |
| BencodeBuffers.Write | rust/bittorrent/bencode/src/lib.rs:341-366 | appends exactly the encoding of the value |
| BencodeBuffers.WriteByteString | rust/bittorrent/bencode/src/lib.rs:368-376 | appends exactly the encoding of the byte string |
| BuildGraphs.NextChainIs | python/foreman/foreman.py:510-519 | the next environment as a flat map depends only on the current flat map and the command line, however the chain is made up, and the command line stays at its end |
| BuildGraphs.ClosedUnderReach | python/foreman/foreman.py:859-864 | a set closed under dependencies that contains a node contains all it reaches |
| BuildExecutors.IdDetermines | python/foreman/foreman.py:549-553 | the sorted labels and the values in that order determine the environment |
| BuildExecutors.RecordAdds | python/foreman/foreman.py:545-558 | recording a build records it and no other |
| BuildExecutors.BuildIds.CheckAndAdd | python/foreman/foreman.py:545-558 | true exactly when this rule was asked for in this environment before; from then on it is |
| BuildExecutors.Closes | python/foreman/foreman.py:504-534 | a node whose dependencies have all been asked for may be executed: each was executed before it or leads back to it |
| BuildExecutors.Executor.ExecuteDependency | python/foreman/foreman.py:506-521 | a dependency that applies is executed next, depth first, and only what the rule reaches is added |
| BuildExecutors.Executor.ExecuteDependencies | python/foreman/foreman.py:504-521 | after the loop all dependencies that apply, reverse ones included, have been asked for, executed depth first in their order |
| BuildExecutors.Executor.ExecuteRule | python/foreman/foreman.py:495-534 | terminates on any graph; executes depth first what the rule asks for and then the rule, unless this build was asked for before; keeps that nothing is executed twice and dependencies are executed first or lead back |
| BuildExecutors.Executor.Execute | python/foreman/foreman.py:492-493 | adds one requested rule to a partial build |
| BuildExecutors.Build | python/foreman/foreman.py:859-866 | executes exactly the pairs of rule and flat environment reachable from the requested rules, each once, depth first in the order of the requested rules |
| BuildExecutors.AnyOrderBuildsTheSame | python/foreman/foreman.py:859-866 | for one graph, the executed builds do not depend on the order of the requested rules |
| BuildExecutors.DependenciesFirstExactly | python/foreman/foreman.py:495-534 | every dependency is executed before its dependent if and only if the requested rules reach no cycle |
| BuildExecutors.CyclesBreakTheOrder | python/foreman/foreman.py:495-534 | a rule that depends on itself, every build of which executes it before its dependency |
| BuildLoaders.HandedExactly | python/foreman/foreman.py:333-335 | a rule receives from each visited rule exactly one turned-around entry per reverse dependency declared on it, and nothing else |
| BuildLoaders.Loader.HandOver | python/foreman/foreman.py:333-335 | the inner loop hands over exactly these entries |
| BuildLoaders.Loader.ResolveReverseDependencies | python/foreman/foreman.py:320-337 | terminates on any graph, visits each rule of the forward closure once, breadth first, and changes the rules by exactly what those hand over in that order |
| BuildLoaders.ResolvedClosed | python/foreman/foreman.py:320-337 | resolving keeps all labels defined |
| BuildLoaders.Deduplicated | python/foreman/foreman.py:821-825 | the requested labels without repetition, each at its first place |
| BuildLoaders.CommandBuild | python/foreman/foreman.py:821-866 | resolves breadth first over the closure of the requested rules, then executes depth first a complete build of the resolved graph |
| BuildLoaders.CommandLineOrderIsIrrelevant | python/foreman/foreman.py:859-864 | whatever the order of the rules on the command line, and so of the reverse dependencies handed over, the same builds are executed |
| BuildWalks.WalkGoesOutwards | python/foreman/foreman.py:327-337 | the walk visits rules in order of the least number of dependencies that lead to them from the requested ones |
| BuildCommands.ExecutesExactly | python/foreman/foreman.py:819-868 | told from the rules as declared: a build is executed if and only if the requested rules lead to it by declared dependencies and by reverse dependencies declared in the forward closure, as far as their conditions hold, each setting the parameters it declares; and each once |
| BuildCommands.DeclaredIsExecuted | python/foreman/foreman.py:504-521 | where a rule is executed and another is declared its dependency, at it or in reverse at the other, the other is executed in the environment that the declared parameters make, key by key |
| BuildCommands.OrderedExactly | python/foreman/foreman.py:495-534 | each build comes after all builds it depends on, reverse dependencies included, if and only if none leads back to itself |
| BuildCommands.AsksInOrder | python/foreman/foreman.py:277-280 | a build asks for its declared dependencies first, in order, then for those handed to it |
| BuildCommands.HandedInOrder | python/foreman/foreman.py:327-337 | what is handed over comes in the order of the visits, and from one rule in the order of declaration |

## Left out

- Tree nodes, buckets and files are values inside their owner, as ownership in the sources allows no aliases; boxes and references are not modelled.
- Integers are unbounded: overflow of 64-bit sizes and offsets and of the 32-bit error counter is not modelled, except for the parsing of integers and lengths and the saturating backoff factor.
- Ids have 160 bits; endpoints, peers, pieces, tokens and labels stand for themselves and are only compared, and labels are ordered.
- ScheduleEquivalence.PeersOrPieces: a sufficient condition on the owners only; ties over pieces that nobody contends for do no harm either. The exact relation is ScheduleEquivalence.PeersExactly.
- The set of requests a queue has not sent yet, except for its initial contents.
- Failing input and output, files that are longer or shorter than declared, seeking in several files, creation and allocation of files.
- The bytes of a bitfield: a possession carries the decoded bits.
- The bootstrap of a lookup, its concurrency limit, and timeouts as distinct from other errors.
- The state of the bencode buffer after a failed decoding, serialisation through serde, typed conversions and printing of values.
- Values of build parameters are compared by equality, so values that differ but compare equal are one value; derived and typed parameters, `build` callbacks that raise, and dry runs only matter through the pure `when`.
- Loading of build files, which executes code and does not end when a label stays undefined; that all labels are defined is required instead.
- The peer actor and manager, uTP, stream encryption, the tracker client, HTTP and the fixed-layout wire codecs.
