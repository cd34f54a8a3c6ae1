# Claim replication and enforcement of the Fail2Ban guard

This project models how Fail2Ban hosts replicate their permanent bans to a pfSense box and how the box
turns them into packet-filter tables, and proves what that pipeline promises. `dafny verify dfyconfig.toml`
checks all of it.

## What is modelled

- **Sender** (`client/sender.py`): a durable sequence allocator, a claims table keyed by jail and address, a
  bounded outbox, hooks, fenced snapshots, and the worker that sends the lowest undelivered number with
  capped exponential backoff. `SenderModel` says what each operation does to the tables, `SenderStore` and
  `Worker` are the objects that do it statement by statement, `SenderOutcomes` says of every hook and snapshot what
  it answers and records in terms of the tables alone, `SenderLaws` and `SenderRuns` are the laws.
- **Receiver** (`src/f2bguard/store.py`): claims keyed by client, jail and ban identity, one sequence number per
  client, history tables that may be pruned at any time, atomic batches, replacing snapshots, limits.
  `ReceiverModel` specifies it, `ClaimStore` implements it, `ReceiverOutcomes` says of every batch and snapshot what it
  answers and leaves in terms of the request's own fields, `ReceiverLaws`, `ReceiverRuns`, `Retention`,
  `StoreInvariant`, `HistoryLaws`, `BatchLaws` and `ClientIsolation` are the laws.
- **The whole protocol**: `Replication` runs any number of senders, a network that loses, repeats, delays and
  reorders, lost answers, restarts, pruning and foreign clients, and proves end-to-end agreement over every
  run; `Admission` says exactly when the next payload is applied, `HeadOfLine` what a payload does that never
  is, `Convergence` what holds once answers are taken, and `Draining` that they can be.
- **Enforcement** (`src/f2bguard/server.py`, `src/f2bguard/pf_helper.py`): `PfModel`, `PfHelper` and `PfLaws` are
  the helper's two-table replacement with rollback under every pattern of failing commands; `Enforcement` and
  `Enforcer` are one enforcement and one write; `EnforcementOrder` interleaves all threads of the service,
  the lock, time-outs, late requests and the serial helper.
- **Two fast structures**: `Networks` (sort, merge, bisect) and `RateLimit` (sliding window).
  `AddressPolicy` ties the numeric address policy to networks in prefix notation.

Functions on values specify each operation; the classes take the form the program has (fields, loops, rollback
by restoring what the transaction read) and each of their methods is proved equal to its function, old state
to new. Runs are sequences of moves in which a move that is not possible changes nothing, so a law about all
runs is a law about all interleavings.

### Assumptions

- SQLite transactions are atomic and its declared keys and uniqueness constraints hold.
- Event and snapshot identifiers that a sender draws are fresh for that sender. Ban identities are **not**
  assumed fresh: `UNIQUE(jail, ban_id)` covers closed rows too, and that is enough for every law here.
- A payload hash is as good as the payload; a digest is as good as the list it covers.
- Request sizes are within the byte limits.

### Results that a reader of the program may not expect

- The worker never skips a number, so a payload that is never admitted blocks everything behind it for ever. Two
  ways to get there matter. Sender and receiver disagree on jail names: the sender accepts a leading `_`, `.` or
  `-`, the receiver does not. And a ban that comes next when the client is at its limit is refused, while the
  unbans that would make room wait behind it.
- Accepting a list one event at a time does not imply accepting it as a batch. The exceptions are exact: the batch
  crosses the stored number, or it reuses an identifier that is remembered at its start but was evicted or pruned
  before the single event came.
- The request limiter reads the clock before it takes the lock, so times can reach it out of order. Its bound then
  still holds for a limit of one, and for any limit while no call is granted beside a grant that was popped too
  early; but for every limit above one a delay however short can break it.
- After a failed replacement a whitelisted address can still be in a table, but exactly if it was there before
  and no command on that table acted.
- The order of the claims in a snapshot payload, which the sender sorts, does not matter to any law.

## Model

| member | source | states |
|---|---|---|
| Wire.JailPoliciesDifferOnFirstCharacter | client/sender.py:81-88 | a jail name the sender accepts is accepted by the receiver if and only if it does not start with `_`, `.` or `-` |
| Wire.JailRefusedByReceiver | src/f2bguard/store.py:111-114 | a concrete name that hooks accept and the receiver refuses |
| HeadOfLine.EmittedIsValidIff | src/f2bguard/store.py:300-328 | what an honest sender emits passes validation if and only if the receiver admits its jails, its number fits 63 bits and it is not too long |
| Admission.NextIsAppliedIff | src/f2bguard/store.py:428-435 | the admission law: the payload that comes next, once validated, is applied if and only if the sender's open claims right after it are within the client's limit and, with the rows of all other clients, within the total |
| HeadOfLine.InadmissibleBlocksForEver | client/sender.py:439-447 | a payload that no validation and no limit up to a cap admits stays undelivered over every run with limits up to that cap, and so does everything after it |
| HeadOfLine.OtherwiseApplied | src/f2bguard/store.py:428-435 | every other payload passes validation and is applied when it comes next under that cap, if other clients leave room |
| HeadOfLine.RefusedJailBlocksForEver | client/sender.py:439-447 | a payload in a jail that the receiver refuses blocks its sender for ever, whatever the limits |
| HeadOfLine.FullClientBlocksForEver | src/f2bguard/store.py:428-432 | a ban that comes next while the client holds as many rows as its limit blocks its sender for ever, together with every unban queued behind it |
| HeadOfLine.RefusedJailIsReachable | client/sender.py:327-369 | one ban hook in a jail with a leading underscore reaches such a state |
| AddressPolicy.AdmissibleIffOutsideSpecialNetworks | src/f2bguard/store.py:117-132 | the address policy admits exactly the addresses that lie in none of nine special networks |
| Networks.Merge | src/f2bguard/networks.py:40-54 | merging gives strictly ordered, disjoint, non-adjacent intervals with the same cover |
| Networks.Intervals.Contains | src/f2bguard/networks.py:20-22 | bisection finds an address exactly if some interval holds it |
| Networks.BisectRight | src/f2bguard/networks.py:20-22 | the insertion point splits the starts into those at most and those above the value |
| Networks.BuildIndex | src/f2bguard/networks.py:28-38 | the index is the merge of the ranges of both families |
| Networks.CanonicalUnique | src/f2bguard/networks.py:40-54 | two canonical lists with the same cover are equal |
| Networks.MergeDependsOnCoverOnly | src/f2bguard/networks.py:40-54 | two merges are equal if and only if the inputs cover the same addresses, whatever their order, overlap or repetition |
| Networks.CanonicalIsShortest | src/f2bguard/networks.py:75-78 | no interval list with the same cover is shorter than a canonical one |
| Networks.PrefixIsRange | src/f2bguard/networks.py:30-35 | sharing the leading prefix bits is lying between network and broadcast address |
| Networks.IndexRefinesPrefixSearch | src/f2bguard/networks.py:56-60 | for every list of prefixes and every address, index membership holds if and only if a network of the family shares the address's prefix |
| Networks.IndexIsCanonical | src/f2bguard/networks.py:28-38 | two whitelists give the same index if and only if they cover the same addresses |
| Networks.LengthIsMinimal | src/f2bguard/networks.py:75-78 | the reported length is the size of a shortest list of intervals for the IPv4 part plus that of one for the IPv6 part |
| Networks.ExcludeKeepsUnlistedInOrder | src/f2bguard/networks.py:70-73 | exclusion keeps every unlisted position, only those, and in order |
| RateLimit.RateLimiter.Allow | src/f2bguard/server.py:253-262 | the call pops, tests and appends as the specification function on the table of deques |
| RateLimit.ClientsAreIndependent | src/f2bguard/server.py:255-262 | on the shared table a client has the deque and gets the answers that its own calls alone produce |
| RateLimit.WindowNeverExceedsLimit | src/f2bguard/server.py:253-262 | over every interleaved run on the shared table in which the client's own times do not decrease, every half-open 60-second window holds at most the limit of the client's allowed calls |
| RateLimit.GuardKeepsWindow | src/f2bguard/server.py:257-261 | in any order of times the bound holds as long as no call is granted while a grant already popped is newer than a window before it |
| RateLimit.OrderedIsNeverLate | src/f2bguard/server.py:257-261 | times that do not decrease meet that guard |
| RateLimit.RefusedExactlyWhenWindowFull | src/f2bguard/server.py:259-260 | the shared table refuses a call if and only if the window ending at it already holds exactly the limit |
| RateLimit.BoundHoldsInEveryOrderIff | src/f2bguard/server.py:254-261 | the bound holds for all runs in whatever order of times if and only if the limit is at most one |
| RateLimit.LateClockReadBreaksWindow | src/f2bguard/server.py:254-255 | for every limit above one and every delay under a minute, however short, a run in which one call is overtaken by that much and a window holds one allowed call more than the limit |
| SenderStores.SenderStore.constructor | client/sender.py:236-272 | opening a database keeps everything but delivered rows |
| SenderStores.SenderStore.UpsertClaim | client/sender.py:346-351 | the upsert fails exactly on a ban identity of another row of the jail, open or closed |
| SenderStores.SenderStore.InsertRow | client/sender.py:361-364 | the insert fails exactly on a used number or identifier and never reuses a row id |
| SenderStores.SenderStore.Enqueue | client/sender.py:327-369 | a hook is the specified transaction: all three tables change together or none does; each of its five answers is given exactly in its case, and an accepted hook records exactly its event and its claim |
| SenderStores.SenderStore.NormalizeClaims | client/sender.py:385-402 | the normalisation loop refuses malformed and repeated entries and proposes one identity for each |
| SenderStores.SenderStore.CommitSnapshot | client/sender.py:404-437 | fence, capacity, upserts, releases and the row are one transaction, undone on any failure; for distinct keys each answer is given exactly in its case, and a commit records exactly the wanted claims under their identities |
| SenderStores.SenderStore.EnqueueSnapshot | client/sender.py:377-437 | the whole snapshot operation, refused as invalid exactly if an entry is malformed or repeats an earlier one, before the transaction |
| SenderStores.SenderStore.NextDue | client/sender.py:439-447 | gives a row that is due, or none exactly if no row is the lowest undelivered one with its wait over |
| SenderStores.SenderStore.MarkDelivered | client/sender.py:449-450 | marks an undelivered row, and leaves every other row alone |
| SenderStores.SenderStore.MarkRetry | client/sender.py:452-456 | stores attempts and the next time of an undelivered row, and nothing else |
| SenderLaws.NormalizeIsExact | client/sender.py:385-402 | normalising succeeds if and only if no entry is malformed or repeats an earlier one; keys keep their order and every entry its identity: that of the open claim, else the given one, else the drawn one |
| SenderLaws.UpsertAllIsExact | client/sender.py:412-420 | after the loop every wanted key is open under its kept identity, all others are untouched, identities stay unique per jail |
| SenderLaws.EnqueueKeepsInv | client/sender.py:327-369 | a hook keeps the invariant, opens or closes exactly its claim, changes nothing if refused, and collides only on a drawn identity already in the jail |
| SenderLaws.SnapshotKeepsInv | client/sender.py:377-437 | a committed snapshot leaves exactly the wanted claims open, keeps the identities of claims that stay open, and races exactly if the number moved |
| SenderLaws.DueIsWindowHead | client/sender.py:443-447 | the row that may be sent is the first number of the undelivered interval |
| SenderLaws.DueIffWindowHead | client/sender.py:443-447 | a row may be sent if and only if it is the first undelivered one and its wait is over |
| SenderLaws.PruneKeepsInv | client/sender.py:293-294 | pruning leaves exactly the undelivered rows |
| SenderOutcomes.HookIsAnswered | client/sender.py:327-369 | from any tables, the exact case of each answer of a hook, spelled out on the tables, and what an accepted hook records |
| SenderOutcomes.HookIsAcceptedIff | client/sender.py:327-369 | in every reachable state and with a fresh event identifier a hook is accepted if and only if its input is valid, it changes the claim, there is room and the drawn identity of a ban is in no other row of the jail; full if and only if only the room is missing |
| SenderOutcomes.FirstRowIsDueAtOnce | client/sender.py:361-364 | a row recorded in an empty outbox may be sent at once |
| SenderOutcomes.SnapshotIsAnswered | client/sender.py:404-437 | the exact case of each answer of a snapshot: race if and only if the fence fails, full if and only if it holds and the room is missing, collision if and only if a kept or proposed identity or the identifier is taken |
| SenderOutcomes.FreshSnapshotIsCommitted | client/sender.py:404-437 | in every reachable state a snapshot whose fence holds, with room, a fresh identifier and fresh distinct proposals for the keys not open is committed, with the next number and exactly the wanted claims |
| SenderRuns.OutboxWindow | client/sender.py:277-294 | after every run the undelivered numbers are an interval ending at the allocator value, delivered rows lie below, the bound holds, and the n-th payload ever emitted has number n |
| SenderRuns.SameNumberSameClaims | client/sender.py:284-286 | over any moves the allocator never goes back, and an unchanged value means an unchanged claims table |
| SenderRuns.FencedSnapshotCommitsOnObservedClaims | client/sender.py:406-422 | whatever runs between observing and committing, a snapshot that commits does so on the very claims observed, opens exactly the listed keys and keeps identities |
| SenderRuns.HooksRefineSet | client/sender.py:327-369 | a run of hooks refines insertion into and removal from a set of jail and address pairs |
| SenderRuns.EventsOfKeyAlternate | client/sender.py:340-358 | between snapshots the events of a key alternate and an unban carries the identity of the ban that opened the claim |
| Workers.Worker.ProcessOnce | client/sender.py:587-605 | one turn sends the due row or finds none, and records exactly the outcome |
| Workers.BackoffDoublesUpToCap | client/sender.py:596-599 | the wait starts at the initial value, doubles until the cap or the twenty-first failure, and never shrinks |
| Workers.TurnSendsWindowHead | client/sender.py:587-605 | a turn sends the first undelivered payload and moves on exactly if it was acknowledged; a failure adds one attempt to that row, touches no other, and nothing at all is due before its wait is over |
| Workers.AcknowledgedInOrderOnce | client/sender.py:587-610 | over every interleaving of turns, hooks, snapshots and restarts the acknowledged payloads are a contiguous stretch of all that was emitted, each once and in order |
| Workers.RunCommand | client/sender.py:648-660 | the five-attempt loop of the snapshot command, with hooks running during each enumeration |
| Workers.CommandIsFenced | client/sender.py:648-660 | the command gives up if and only if in each of its rounds a hook was accepted during the enumeration; it creates a snapshot only in a round no hook disturbed, on the very state it observed, and then the open claims are exactly the enumerated ones |
| Workers.FirstQuietRoundDecides | client/sender.py:648-660 | the first round that no hook disturbs decides: the command creates a snapshot, that of exactly the claims enumerated then, if and only if the list is well formed, there is room, no identity clashes and the identifier is unused |
| ClaimStores.ClaimStore.ApplyOne | src/f2bguard/store.py:375-427 | one event: identity check, claim statement, history row under its two keys |
| ClaimStores.ClaimStore.FindMismatch | src/f2bguard/store.py:351-362 | finds a reused identifier exactly if some event has one with other content |
| ClaimStores.ClaimStore.ApplyEvents | src/f2bguard/store.py:330-452 | the whole batch transaction equals its specification in every branch, with rollback to what it read; once applied, each identity has what its last event says, a ban its address, expiry and permanence, an unban no row, and all other rows stay |
| ClaimStores.ClaimStore.FindRebinding | src/f2bguard/store.py:504-507 | finds a rebinding exactly if some listed identity is held with another address |
| ClaimStores.ClaimStore.ReplaceRows | src/f2bguard/store.py:509-529 | deletes the client's rows and inserts the listed ones, failing exactly on a repeated identity |
| ClaimStores.ClaimStore.ApplySnapshot | src/f2bguard/store.py:454-549 | the whole snapshot transaction equals its specification in every branch; once applied, the client has exactly the listed claims with their addresses and lifetimes, and all other clients their rows |
| ClaimStores.ClaimStore.Effective | src/f2bguard/store.py:551-564 | for each family the ascending addresses on which some client has a permanent claim without expiry or with a later one |
| ClaimStores.ClaimStore.ClientEffective | src/f2bguard/store.py:566-581 | the same for the claims of one client |
| ClaimStores.ClaimStore.PruneHistory | src/f2bguard/store.py:640-645 | keeps exactly the history rows received within the retention, unchanged, touches no claim or number, and counts what it deleted |
| ReceiverLaws.NotAppliedChangesNothing | src/f2bguard/store.py:364-373 | a refused request changes no table; a repeated or stale one changes no claim, number or history row |
| ReceiverLaws.RowsOfDistinctClaims | src/f2bguard/store.py:510-529 | a snapshot's rows are one for each listed claim, with its address and lifetime |
| ReceiverLaws.ApplyIsExact | src/f2bguard/store.py:330-549 | a newly applied request lies above the stored number, sets its client's rows to the raw effects within both limits, and leaves other clients alone; any other leaves all claims and numbers |
| ReceiverOutcomes.AppliedBatchRows | src/f2bguard/store.py:375-427 | an applied batch leaves, for each identity it mentions, exactly what the last event says; a ban is permanent if and only if the event says so |
| ReceiverOutcomes.BatchIsAnswered | src/f2bguard/store.py:341-435 | for a valid store and a validated batch the exact case of each of the six answers: duplicate, stale, conflict, client limit, global limit, applied |
| ReceiverOutcomes.BatchIsRecorded | src/f2bguard/store.py:412-447 | an applied batch sets its client's number to its last, adds one history row for each event and keeps the newest rows; any other answer leaves claims, numbers and histories |
| ReceiverOutcomes.AppliedSnapshotRows | src/f2bguard/store.py:509-529 | an applied snapshot leaves its client exactly the listed claims and all others their rows |
| ReceiverOutcomes.SnapshotIsAnswered | src/f2bguard/store.py:454-535 | for a valid store and a validated snapshot the exact case of each of the six answers |
| ReceiverOutcomes.SnapshotIsRecorded | src/f2bguard/store.py:530-544 | an applied snapshot sets its client's number to its own, adds its history row and keeps the newest; any other answer leaves claims, numbers and histories |
| ReceiverOutcomes.RepeatIsRecognised | src/f2bguard/store.py:364-373 | a batch at or below the stored number is a duplicate if all its events are remembered and stale once one is forgotten, and changes nothing |
| ReceiverOutcomes.EffectiveIffClaimed | src/f2bguard/store.py:551-564 | an address is effective if and only if some claim on it is permanent and has no expiry or a strictly later one |
| ReceiverOutcomes.OnlyPermanentIsEnforced | src/f2bguard/store.py:556 | an address all of whose claims are temporary is never effective |
| ReceiverOutcomes.TimeOnlyRemoves | src/f2bguard/store.py:551-564 | without requests, time only removes addresses from the effective set |
| Retention.TrimKeepsNewestEvents | src/f2bguard/store.py:441-447 | trimming keeps exactly the newest rows of the client, as many as the cap allows, and every row of the others |
| Retention.TrimKeepsNewestSnapshots | src/f2bguard/store.py:538-544 | the same for the snapshot history |
| ReceiverRuns.ReplaySafety | src/f2bguard/store.py:364-410 | over any run with repeats, reorderings and pruning, claims and number are a fold over the newly applied requests, whose ranges strictly rise |
| ReceiverRuns.LastSeqNeverDecreases | src/f2bguard/store.py:436-440 | a client's number never decreases over any run |
| ReceiverRuns.NoResurrection | src/f2bguard/store.py:364-373 | a claim absent at some point reappears only through a later newly applied request that introduces it and lies above the number stored then |
| StoreInvariant.LoopMeetsNoKeyViolation | src/f2bguard/store.py:264-285 | a rising batch of unused identifiers never violates a history key and adds exactly its rows |
| StoreInvariant.ValidRequestsKeepStoreOk | src/f2bguard/store.py:264-285 | for validated requests stored history stays at or below the number, limits and address policy hold, and no uniqueness violation ever occurs |
| StoreInvariant.PruneKeepsStoreOk | src/f2bguard/store.py:640-645 | deleting any history keeps the invariant |
| HistoryLaws.RequestIgnoresHistory | src/f2bguard/store.py:350-373 | stores that differ only in remembered history do the same with a validated request that reuses no remembered identifier for other content |
| HistoryLaws.HistoryOnlyAdds | src/f2bguard/store.py:412-447 | every history row after a request is an old one or one of the request |
| HistoryLaws.ForgettingIsHarmless | src/f2bguard/store.py:640-645 | a run with any pruning and the same run without it end with the same claims and numbers |
| BatchLaws.AcceptedSinglesAcceptedAsBatch | src/f2bguard/store.py:341-452 | a valid list accepted one event at a time, at any times and with any pruning in between, is accepted as a batch, with the same claims and number, if and only if it does not cross the stored number and reuses no identifier remembered at its start (a new list none at all, an old one only for the same content) |
| BatchLaws.AppliedBatchAcceptedSinglyIff | src/f2bguard/store.py:428-435 | an applied batch is accepted one event at a time, at any times and with any pruning in between, if and only if the limits also hold after every prefix |
| BatchLaws.CrossingBatchDiffers | src/f2bguard/store.py:364-366 | an old event and its successor: accepted singly, refused as a batch |
| BatchLaws.EvictedIdentifierDiffers | src/f2bguard/store.py:441-447 | for every history cap, so also the source's, a full history in which the first single event evicts the identifier that the second reuses: accepted singly, refused as a batch |
| BatchLaws.LimitAppliesAfterWholeBatch | src/f2bguard/store.py:428-435 | at the limit a ban followed by an unban is accepted as a batch and refused singly |
| ClientIsolation.OwnRequestOnShare | src/f2bguard/store.py:330-549 | a request acts on its client's rows as if the client were alone, unless the global limit refuses it |
| ClientIsolation.InterleavedRunProjectsToSoloRun | src/f2bguard/store.py:330-549 | every interleaved run, projected onto one client none of whose requests meets the global limit, is the client's solo run |
| ClientIsolation.OthersClaimKeepsAddress | src/f2bguard/store.py:551-564 | an address another client has in force stays in force |
| ClientIsolation.AddressLeavesOnlyWhenUnclaimed | src/f2bguard/store.py:551-564 | an address leaves the effective set only through an applied request of the last client that had it in force |
| Replication.EndToEndAgreement | src/f2bguard/store.py:330-549 | after every run there is an earlier point, right after the move with which the sender committed the receiver's number, such that the receiver's claims are exactly the inverse of the open rows of the sender's claims table at that point |
| Replication.HonestRequestNeverConflicts | src/f2bguard/store.py:358-406 | in every reachable state a validated request of an honest sender is applied as the direct successor, recognised as old, or refused by a limit; it never conflicts |
| Replication.NothingRunsAhead | client/sender.py:439-456 | in every reachable state requests under way are at most one ahead of the receiver, and every number it has not passed is still undelivered |
| Replication.PerformKeepsInv | client/sender.py:587-605 | every move of senders, network, receiver and pruning keeps agreement of both ends |
| Convergence.EmptyOutboxMeansEqual | client/sender.py:439-450 | with an empty outbox the receiver's claims are the inverse of the sender's open claims |
| Convergence.PendingIsMeasure | client/sender.py:449-456 | no move of anyone changes a sender's outbox length or open claims, except its own hooks and snapshots and a taken answer, which makes the outbox exactly one shorter |
| Convergence.SuccessfulRound | client/sender.py:587-605 | a round whose send succeeds delivers exactly the head row and no claim changes |
| Convergence.QuietRunDrains | client/sender.py:587-610 | over every run in which a sender records nothing new, whatever else happens, its undelivered rows and the answers it took add up to the rows it had, and its open claims stay |
| Convergence.AnsweredRunConverges | client/sender.py:587-610 | over every such run the outbox is empty if and only if as many answers were taken as rows were undelivered, and then the receiver's claims are exactly the inverse of the open claims |
| Draining.AnsweredRunExists | client/sender.py:587-610 | from every reachable state whose undelivered payloads can be admitted under a limit, with room in the total for that many rows of every host, some run without new records lets every host take all its answers |
| Convergence.AllDueEventually | client/sender.py:443-447 | from some time on every retry wait of a sender is over |
| Convergence.AnsweredRunEnforcesUnion | src/f2bguard/store.py:551-564 | after every run in which all hosts record nothing new and take all their answers, the addresses to enforce are exactly those open at some host when it began and those other clients have in force |
| Convergence.DrainedEffectiveIsUnion | src/f2bguard/store.py:551-564 | with all outboxes empty the addresses to enforce are exactly those open at some host and those other clients have in force |
| PfHelper.ParseRequest | src/f2bguard/pf_helper.py:67-93 | accepts exactly the acceptable requests and gives the sorted, distinct addresses of each family |
| PfHelper.PacketFilter.ReplaceTable | src/f2bguard/pf_helper.py:102-111 | one table command that acts or not and reports success or not |
| PfHelper.PFUpdater.Previous | src/f2bguard/pf_helper.py:122-130 | gives a table exactly if it can be shown and holds only hosts of its family |
| PfHelper.PFUpdater.RollBack | src/f2bguard/pf_helper.py:135-144 | writes back both prior tables without whitelisted entries and says whether both writes succeeded |
| PfHelper.PFUpdater.Replace | src/f2bguard/pf_helper.py:113-147 | the whole replacement equals its specification for every pattern of failing commands |
| PfHelper.EffectiveIsUnlisted | src/f2bguard/pf_helper.py:116-119 | filtering the sorted list by the index gives the sorted list of the unlisted addresses |
| PfLaws.ReplacementIsAllOrPrior | src/f2bguard/pf_helper.py:113-147 | success leaves each table the request less the whitelist, a completed rollback its prior contents less the whitelist, an early failure both untouched; each answer has its exact case, and a failure reports the rollback as complete if and only if both undoing writes succeeded |
| PfLaws.EachTableIsOneOfThree | src/f2bguard/pf_helper.py:131-144 | whatever fails, a table that was written ends as the wanted addresses or its safe prior contents |
| PfLaws.WhitelistedOnlyIfUntouched | src/f2bguard/pf_helper.py:135-143 | a whitelisted entry is in a table afterwards if and only if it was there before and no write acted |
| PfLaws.DigestsAgreeIff | src/f2bguard/pf_helper.py:145-147 | two digests agree if and only if the address sets do |
| PfLaws.ExcludeIsSortedDifference | src/f2bguard/server.py:226-231 | excluding from a sorted list gives the sorted list of the difference |
| Enforcement.StoredStateIsAlwaysEnforceable | src/f2bguard/pf_helper.py:67-93 | the store's invariant makes the helper accept every request the service builds |
| Enforcement.SubmitSucceedsIff | src/f2bguard/server.py:139-147 | a submission succeeds if and only if some attempt reaches the helper, meets no failure on the tables the earlier attempts left and is answered; the first such attempt gives the answer and is the last to touch the tables, and if there is none all attempts are made |
| Enforcement.SomeWorksIffSomeGoesWell | src/f2bguard/server.py:139-147 | for an acceptable request over tables of hosts that is so if and only if nothing goes wrong in some attempt: whatever failed attempts leave cannot make a later one fail |
| Enforcement.StoredStateIsEnforcedIff | src/f2bguard/server.py:198-224 | over a valid store the request is always acceptable, so with a readable whitelist an enforcement succeeds if and only if the tables hold only hosts and nothing goes wrong in some attempt |
| Enforcement.SuccessMeansTablesAreExact | src/f2bguard/server.py:198-224 | after a successful submission, whatever earlier attempts did, the tables, counts and digest are exact, and the digests match if and only if no desired address is whitelisted |
| Enforcement.RequestDependsOnListOnly | src/f2bguard/server.py:207-210 | the request that is sent is the sorted desired addresses outside the whitelist, whatever the index looks like |
| Enforcement.DrainedAndEnforced | src/f2bguard/server.py:198-224 | after every run in which all hosts record nothing new and take all their answers, a successful enforcement leaves in the tables exactly the hosts' open claims and the other clients' addresses in force, less the whitelist |
| Enforcers.HelperClient.Submit | src/f2bguard/server.py:130-147 | three attempts at most; it succeeds if and only if some attempt works on the tables it finds, with the answer and the tables of the first that does, and with those of all attempts otherwise |
| Enforcers.Enforcer.Enforce | src/f2bguard/server.py:198-224 | it succeeds if and only if the whitelist can be read and some attempt works, over a valid store that is if nothing goes wrong in some attempt; the tables are what the attempts up to that one leave; a success makes tables, both counts and digest exact for the claims as they are, a failure keeps the last index and the last applied record |
| Enforcers.Enforcer.ClientEffectiveCount | src/f2bguard/server.py:233-244 | counts a client's addresses outside the whitelist last enforced; fails exactly for a client with addresses before the first enforcement |
| Enforcers.Enforcer.Write | src/f2bguard/server.py:408-486 | a valid write is forbidden if and only if one of its events or claims has a jail outside the client's; a write that is not accepted changes no claim, number, record or table; each status arises if and only if its case holds, success being an accepted write whose enforcement succeeded; a stale write whose enforcement fails is reported as not durable |
| EnforcementOrder.ProcessedStatesNeverGoBack | src/f2bguard/pf_helper.py:229-234 | over every run with time-outs, retries, losses and restarts the store states behind the requests the helper processes never go backwards |
| EnforcementOrder.RunExtends | src/f2bguard/server.py:198-224 | confirmed writes, processed requests and the state each table stems from only move forward |
| EnforcementOrder.AnsweredWriteStaysEnforced | src/f2bguard/server.py:408-434 | for a write answered with success, the helper has completed a request read after the commit, and for ever after each table holds only addresses some state since wanted and every address all states since wanted and no whitelist reading since covered |
| EnforcementOrder.PerformKeepsInv | src/f2bguard/server.py:198-224 | every move of threads, clock, helper and restart keeps the order and contents invariant |
| EnforcementOrder.HelperTableFits | src/f2bguard/pf_helper.py:131-144 | whichever commands fail, each table fits the state its contents stem from |
| EnforcementOrder.UndisturbedWriteIsAnswered | src/f2bguard/server.py:408-434 | there is a run in which a write is answered with success |

## Left out

- TLS, HTTP headers and bodies, sockets, signals, the command line and file checks; a request is a value, a lost or
  repeated request a move of the network, a `pfctl` call a command that may fail with or without effect.
- Parsing and printing of addresses, JSON and UUIDs; addresses arrive as a family and a number. Networks keep
  their host bits, as in a non-strict parse.
- Byte limits of requests. The claim limits do not imply them: 100,000 long IPv6 literals exceed the helper's
  message limit.
- Event expiry other than through `expires_at` at the time of reading, `updated_at` columns and the status report.
- The sort of the claims inside a snapshot payload, which affects only its bytes.
- The stored hash: histories keep the content itself, so a hash collision cannot be expressed.
- Configuration, certificates and the mapping from certificates to clients.
- High availability, lost sender databases and reused identities, which the program declares unsupported.
- The user interface, packaging and service scripts.
- Enforcers.HelperClient.Submit: does not model the pauses between attempts, because no law depends on them.
- Replication.EndToEndAgreement: sends one event in each request, as the worker does; batches of several events are
  treated in BatchLaws.
- Draining.AnsweredRunExists: shows that draining is possible, not that a network must let it happen.
- Enforcers.Enforcer.Write: runs one thread; interleavings of writes are the subject of EnforcementOrder.
- EnforcementOrder.AnsweredWriteStaysEnforced: says nothing about the presence of an address that some reading of the
  whitelist after the commit covered, because the helper may have used that reading.
