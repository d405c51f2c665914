# Nebgov: models and proofs

This project models the parts of the nebgov governance system in which state, paging,
arithmetic or concurrency can go wrong, and proves what they promise:

- **The voting contract** (`contracts/token-votes`): checkpoint histories, plain and split
  delegation, revocation, pruning, past lookups, the delegation graph. Modules `Checkpoints`,
  `SplitDelegation`, `DelegationGraph`, `VotingLedger`, `TokenVotes`, `PastVotes`, `VotesBooks`,
  `OperationLaws`, `DirectWrites`, `VotesContract`. The law at the centre is conservation: at
  every ledger, what all accounts are told adds up to what is told for the total.
- **Event clients** (`sdk`, `scripts`): a ledger-ordered log and scans of it (`EventLog`), the
  incremental delegation index (`DelegationIndex`), the proposal history and replay loops
  (`ProposalEvents`, `ReplayEvents`), topic subscriptions (`TopicSubscription`) and the event
  stream with socket, reconnection and polling (`StreamClient`).
- **Statistics**: the Gini shortcut against the pairwise definition (`Gini`), ranking and paging
  of delegates (`DelegateRanking`), the power distribution against the contract's books
  (`PowerDistribution`), chart shares (`ResultShares`), report comparison (`ReportDiff`).
- **Arithmetic and codecs**: the 128-bit Newton square root (`IntegerSqrt`), the signaling
  payload (`SignalPayload`), hexadecimal text (`HexCodec`).
- **Helpers**: the TTL cache (`TtlCache`), retries (`Retry`), the scenario generator (`Scenario`).

Code that changes state is modelled by classes and loops, each tied by its `ensures` to a
function of the old state; what the code promises is proved about those functions and about
the invariants that every step keeps. What each function computes is stated without it, too:
for the voting contract in `OperationLaws`. Servers, clocks, balances, randomness and callbacks are
arguments. A server is a function of the question asked; "honest" predicates say what an honest
one may answer.

Run `dafny verify dfyconfig.toml`, with `--resource-limit 2000000` for a bound on each proof.

## What does not hold

Where the code does not meet what its documentation or tests promise, the model keeps the code
and a lemma says exactly when the promise is met; most come with a concrete input.

- Pruning the total supply drops the checkpoint that answers for the ledgers between the cutoff
  and the next checkpoint, although only checkpoints that are no longer needed are to go
  (`contracts/token-votes/src/lib.rs:953-955`): `Checkpoints.PruneTotalKeepsLookupIff`,
  `Checkpoints.PruneTotalForgets`. Accounts are not affected. The contract's invariant therefore
  carries a horizon, which pruning moves.
- A plain delegation by an account with a split counts its recorded balance twice, in the
  accounts and in the total alike, and for good: `VotesBooks.StepKeepsExactIff`,
  `VotesBooks.RunExactIff`, `VotesBooks.OverSplitCountsTwice`.
- The direct checkpoint entry point changes an account without the total:
  `DirectWrites.DirectCheckpointConservesIff`, `DirectWrites.DirectCheckpointUnbalances`. One write
  alone gives no negative answer (`DirectWrites.OneWriteNotNegative`), but two can
  (`DirectWrites.DirectCheckpointGoesNegative`), and one followed by delegations can, exactly if
  it writes less than is delegated: `DirectWrites.NeverNegativeIff`,
  `DirectWrites.NonNegativeWriteCanGoNegative`.
- A negative raw weight is reinterpreted as a large unsigned word before the root is taken:
  `IntegerSqrt.ApplyVoteType`, `IntegerSqrt.NegativeWeight`. By `VotesBooks.AnswersNotNegative` no
  run of delegations gives one.
- The depth limit is checked for the delegator's chain only; chains that lead to the delegator
  can become longer than the limit: `DelegationGraph.DepthKeptIff`,
  `DelegationGraph.DepthCanExceedLimit`.
- A split that gives everything to one delegatee becomes a plain delegation without the cycle
  check: `VotesBooks.StepKeepsAcyclicIff`, `DelegationGraph.UncheckedEdgeCanCloseCycle`.
- Scans continue at the ledger after the last event seen, so a page that ends inside a ledger
  loses the rest of that ledger: `EventLog.ScanCompleteIff`, `EventLog.ScanUpToIff`,
  `DelegationIndex.CapCanLoseEvents`. Whether that can happen at all depends on the log:
  `EventLog.EveryScanCompleteIff`. A failed scan's remains then can stay, too:
  `DelegationIndex.RescanCanKeepRemains`.
- The proposal history ends early at a page without a decodable event, and asks for the same
  ledger again if the server falls behind: `ProposalEvents.ProposalEventsCompleteIff`,
  `ProposalEvents.BlindPageLosesEvent`, `ProposalEvents.ProgressIff`,
  `ProposalEvents.BehindServerRepeats`.
- A subscription loses wanted events that a poll's window holds beyond 100 events
  (`TopicSubscription.ExactlyOnceIff`, `TopicSubscription.HundredAndFirstIsLost`), keeps the cursor it learned in a first poll that then
  fails (`TopicSubscription.FailedPollIff`), and delivers again after a callback throws
  (`TopicSubscription.AtMostOnceIff`).
- The stream still delivers after unsubscribing while a poll is waiting or a socket is closing
  (`StreamClient.SilentIff`, `StreamClient.DeliversAfterUnsubscribing`), and never tries a socket
  again once constructing one has failed (`StreamClient.SocketAgainIff`,
  `StreamClient.OneFailedReconnect`).
- An invalidation does not reach computations under way: `TtlCache.FreshAfterInvalidationIff`.
- A voter or nonce text with "|", or with an unpaired surrogate, which the encoder replaces,
  makes the hashed signaling message ambiguous: `SignalPayload.AmbiguousIff`,
  `SignalPayload.SameHashIff`, `SignalPayload.SurrogatesEncodeAlike`.
- The hexadecimal parser accepts more than hexadecimal text: `HexCodec.ParseThenRenderIff`,
  `HexCodec.LenientText`.
- Report identity is transitive only among reports that share their steps:
  `ReportDiff.IdenticalTransitiveIff`, `ReportDiff.IdenticalNotTransitive`.
- The dashboard divides by a total it asks for under the name `total_supply`
  (`sdk/src/votes.ts:591-607`), which the voting contract does not have; the failing call reads as
  0, and so does the delegation rate. `PowerDistribution.DelegatedWithinTotal` compares with the
  contract's own total instead.

## Model

| member | source | states |
|---|---|---|
| `VotesBooks.AnswersAddUp` | contracts/token-votes/src/invariant_tests.rs:190-320 | over every run of a fresh contract, the answers for all accounts add up to the answer for the total at every ledger from the horizon on; under time weighting they never exceed it and lose at most one vote per account |
| `VotesBooks.AnswersAddUpIfSpared` | contracts/token-votes/src/invariant_tests.rs:190-320 | the same without the horizon: at every ledger that no pruning of the run reached in that way, from the first checkpoint of the total on |
| `VotesBooks.AnswersNotNegative` | contracts/token-votes/src/lib.rs:555-580 | over every run no account is ever told a negative number of votes, and time weighting never takes votes away |
| `VotesBooks.SnapshotIsolation` | contracts/token-votes/src/invariant_tests.rs:98-135 | over every run, lookups at a ledger that has passed never change again, as long as every pruning finds the ledger within the retention period, or not before the oldest active proposal it is given; for the total, if in the end a checkpoint not later is left |
| `VotesBooks.StepKeepsValid` | contracts/token-votes/src/invariant_tests.rs:69-96 | every operation keeps conservation at every ledger from the horizon on, sorted histories, and sound checkpoints that cover what the delegations on file give; none but pruning changes a lookup of the past |
| `VotesBooks.RunKeepsValid` | contracts/token-votes/src/invariant_tests.rs:30-67 | so does every run, and ledger and horizon never go back |
| `VotesBooks.StepKeepsExactIff` | contracts/token-votes/src/lib.rs:190-308 | an operation keeps every account's power the sum of the shares delegated to it if and only if it is not a plain delegation, let through, by an account without one that has a balance on record (in a split); and likewise the total the sum of the recorded balances |
| `VotesBooks.RunExactIff` | contracts/token-votes/src/invariant_tests.rs:69-96 | at the end of a run both hold if and only if no operation of the run was such a delegation; nothing that comes later makes up for one |
| `VotesBooks.RunKeepsSurplus` | contracts/token-votes/src/lib.rs:239-273 | over every run, what an account holds beyond the delegations on file never goes down |
| `VotesBooks.StepShifts` | contracts/token-votes/src/lib.rs:190-345 | every operation changes what accounts hold beyond the delegations on file by exactly the shares it leaves behind: those of a split that a plain delegation passes over, else none; and a checkpoint it adds is the latest of its account, written now |
| `VotesBooks.StepKeepsAcyclicIff` | contracts/token-votes/src/delegation_registry.rs:130-145 | an operation keeps the delegation graph acyclic if and only if it is not a whole split to a delegatee whose chain leads back to the delegator |
| `VotesBooks.RunKeepsAcyclicIff` | contracts/token-votes/src/delegation_registry.rs:130-145 | the graph is acyclic all along a run if and only if no operation of it closes a cycle in that way |
| `VotesBooks.AllowedKeepsAcyclic` | contracts/token-votes/src/lib.rs:204-212 | a delegation that passes, or does not need, the check keeps the graph acyclic |
| `VotesBooks.DelegatedKeeps` | contracts/token-votes/src/lib.rs:214-280 | an accepted delegation keeps the invariant and the past |
| `VotesBooks.RevokedKeeps` | contracts/token-votes/src/lib.rs:311-345 | so does a revocation |
| `VotesBooks.SplitKeeps` | contracts/token-votes/src/split_delegation.rs:246-304 | so does a split delegation over any earlier distribution |
| `VotesBooks.PrunedKeeps` | contracts/token-votes/src/lib.rs:1037-1153 | so does pruning, which leaves account lookups from the cutoff on and total lookups from the new horizon on alone |
| `VotesBooks.PruningConserves` | contracts/token-votes/src/lib.rs:1037-1153 | pruned books are balanced, and looked up as before, from the new horizon on |
| `VotesBooks.PruningShifts` | contracts/token-votes/src/lib.rs:1037-1153 | pruning leaves all current values alone and adds no checkpoint |
| `VotesBooks.SafeCutoff` | contracts/token-votes/src/lib.rs:964-974 | the cutoff is the highest ledger that the retention period has left behind and that is not beyond the oldest active proposal, or 0 |
| `OperationLaws.PruningKeepsRetained` | contracts/token-votes/src/lib.rs:953-974 | pruning changes no account lookup at a ledger within the retention period, nor from the oldest active proposal on |
| `OperationLaws.PruningDropsOld` | contracts/token-votes/src/lib.rs:1037-1153 | of what lies at or below a ledger that the retention period has left behind and no active proposal needs, every account keeps at most one checkpoint, and the total none unless it is all there is |
| `OperationLaws.RefusedChangesNothing` | contracts/token-votes/src/lib.rs:154-212 | which calls are let through, written out; any other changes nothing |
| `OperationLaws.DistributionAfter` | contracts/token-votes/src/lib.rs:154-167 | after a delegation everything goes to its delegatee, after undelegating back to the account, after a split along its parts, and after a revocation nothing is on file |
| `OperationLaws.NobodyElse` | contracts/token-votes/src/lib.rs:282-287 | nobody else's distribution or record changes |
| `OperationLaws.SettingsAfter` | contracts/token-votes/src/lib.rs:476-486 | ledger, limits and retention change exactly by the operation that sets them |
| `OperationLaws.RecordAfter` | contracts/token-votes/src/lib.rs:224-236 | whatever operation reads a balance records it; if it did not grow its start ledger stays; a top-up takes away none of the token-ledgers gathered so far and adds fewer than one ledger per token |
| `OperationLaws.VotesAfter` | contracts/token-votes/src/lib.rs:239-273 | every account gains what the new distribution gives it and loses what the old one gave it, unless that is left behind; votes and weighted sums alike |
| `OperationLaws.UndelegateReturns` | contracts/token-votes/src/lib.rs:154-167 | undelegating gives the balance back to the account and takes the recorded one from its delegatee; nobody else's votes change |
| `OperationLaws.RevokeTakes` | contracts/token-votes/src/lib.rs:311-345 | revoking takes the recorded balance from the delegatee and changes nobody else's votes |
| `OperationLaws.DelegateGives` | contracts/token-votes/src/lib.rs:239-273 | a plain delegation gives the balance to its delegatee and takes the recorded one from the delegatee before, if there was one |
| `OperationLaws.TopUp` | contracts/token-votes/src/lib.rs:224-236 | 100 delegated at ledger 0 and 200 at ledger 1000 count from ledger 500 on: 500 votes at ledger 2000 with a scale of 1000 |
| `VotesBooks.OverSplitCountsTwice` | contracts/token-votes/src/lib.rs:267-273 | a run from a fresh contract after which a balance of 100 counts as 200 |
| `DirectWrites.DirectCheckpointConservesIff` | contracts/token-votes/src/lib.rs:620-660 | writing an account's votes directly keeps the books balanced exactly if it writes the value already there |
| `DirectWrites.FoundAfterWrite` | contracts/token-votes/src/lib.rs:620-660 | from then on the account is looked up with the votes written, and no other account's history changes |
| `DirectWrites.DirectCheckpointUnbalances` | contracts/token-votes/src/lib.rs:620-660 | a reachable state and a direct write that unbalances it |
| `DirectWrites.DirectCheckpointGoesNegative` | contracts/token-votes/src/lib.rs:630-636 | two direct writes after which an account is told a negative number of votes under time weighting |
| `DirectWrites.AnswersNotNegativeIff` | contracts/token-votes/src/lib.rs:555-580 | an account is never told a negative number of votes under time weighting, at any ledger, if and only if for every checkpoint with positive votes the total held when it was written lies above minus the votes plus one, times the scale |
| `DirectWrites.WriteNotNegativeIff` | contracts/token-votes/src/lib.rs:630-660 | after a direct write no answer from then on is negative if and only if the votes are not positive or the total held so far bears them in that way |
| `DirectWrites.OneWriteNotNegative` | contracts/token-votes/src/lib.rs:620-660 | one direct write to the books of any reachable state gives no negative answer at any ledger and scale, whatever it writes |
| `DirectWrites.QuietRunNotNegative` | contracts/token-votes/src/lib.rs:620-660 | direct writes that are not negative give no negative answer as long as no delegation changes in between |
| `DirectWrites.NonNegativeWriteCanGoNegative` | contracts/token-votes/src/lib.rs:620-660 | a reachable state and a direct write of 70 of 100 delegated votes after which some run of delegations ends with a negative answer |
| `DirectWrites.WriteKeepsSafeIff` | contracts/token-votes/src/lib.rs:620-660 | if every account holds at least what the delegations on file give it, and all votes were held for totals that are not negative, a direct write keeps it so if and only if it writes at least what the delegations give the account |
| `DirectWrites.MixedRunSafeIff` | contracts/token-votes/src/lib.rs:620-660 | over runs that mix operations and direct writes, the accounts hold what the delegations give, with votes held for totals that are not negative, all along if and only if every write writes at least what the delegations give; then no answer is negative |
| `DirectWrites.NeverNegativeIff` | contracts/token-votes/src/lib.rs:620-660 | after a direct write to such books no later run of operations ever gives a negative answer if and only if it wrote at least what the delegations on file give the account |
| `VotesContract.Contract.constructor` | contracts/token-votes/src/lib.rs:87-107 | a fresh contract is in the valid first state: nothing on file, depth limit 1, at most 10 targets, retention of 100800 ledgers, no time weighting |
| `VotesContract.Contract.Delegate` | contracts/token-votes/src/lib.rs:190-308 | implements the operation; fails, changing nothing, exactly if the new edge is not allowed |
| `VotesContract.Contract.CheckEdge` | contracts/token-votes/src/lib.rs:204-212 | only a delegation to somebody new is checked, and passes exactly if allowed |
| `VotesContract.Contract.MoveVotes` | contracts/token-votes/src/lib.rs:239-273 | the branches of a delegation change accounts and total by the specified amounts |
| `VotesContract.Contract.Refresh` | contracts/token-votes/src/lib.rs:214-237 | added tokens move the start ledger to the weighted mean, rounded down; a balance that has not grown keeps it |
| `VotesContract.Contract.Undelegate` | contracts/token-votes/src/lib.rs:154-167 | implements the operation; a delegation to somebody else is turned into self-delegation, with the balance back and the recorded one taken from the delegatee; otherwise nothing happens |
| `VotesContract.Contract.RevokeDelegation` | contracts/token-votes/src/lib.rs:311-362 | implements the operation: the recorded balance leaves delegatee and total and the delegator is forgotten, or nothing happens |
| `VotesContract.Contract.UpdateAccountVotes` | contracts/token-votes/src/lib.rs:707-770 | adds to the latest checkpoint; a second change in one ledger overwrites it |
| `VotesContract.Contract.UpdateTotal` | contracts/token-votes/src/lib.rs:665-703 | the same for the total |
| `VotesContract.Contract.DelegateSplit` | contracts/token-votes/src/split_delegation.rs:246-309 | implements the operation; fails, changing nothing, exactly for invalid or too many splits |
| `VotesContract.Contract.RemoveOldDistribution` | contracts/token-votes/src/split_delegation.rs:125-188 | takes out a plain delegation, else every part of a split, and says whether there was anything |
| `VotesContract.Contract.ApplyNewDistribution` | contracts/token-votes/src/split_delegation.rs:190-218 | every entry is credited its part |
| `VotesContract.Contract.StoreResult` | contracts/token-votes/src/split_delegation.rs:223-241 | one whole entry becomes a plain delegation, anything else a split |
| `VotesContract.Contract.UndelegateSplit` | contracts/token-votes/src/split_delegation.rs:311-340 | implements the operation; acts exactly if there is a split or a delegation to somebody else |
| `VotesContract.Contract.SetDepthLimit` | contracts/token-votes/src/delegation_registry.rs:414-422 | the limit stays between 1 and 64 |
| `VotesContract.Contract.SetMaxSplitTargets` | contracts/token-votes/src/split_delegation.rs:53-60 | at least one target stays allowed |
| `VotesContract.Contract.PruneCheckpoints` | contracts/token-votes/src/lib.rs:956-989 | implements the operation; no account lookup within the retention period or from the oldest active proposal on changes |
| `VotesContract.Contract.GetPastVotes` | contracts/token-votes/src/lib.rs:555-580 | the votes of the newest checkpoint not above the ledger, with the bonus if enabled; fails exactly for a future ledger or a division by zero |
| `VotesContract.Contract.GetPastTotalSupply` | contracts/token-votes/src/lib.rs:598-617 | the same for the total, without the future check |
| `TokenVotes.MovesConserve` | contracts/token-votes/src/invariant_tests.rs:71-135 | equal changes of accounts and total keep the books balanced at every ledger and change nothing before now |
| `TokenVotes.RedelegatedMoves` | contracts/token-votes/src/lib.rs:239-273 | in every branch of a plain delegation the accounts change, in sum and at every ledger, by what is added to the total |
| `TokenVotes.ResplitMoves` | contracts/token-votes/src/split_delegation.rs:277-296 | the same for a split delegation over any earlier distribution |
| `TokenVotes.RedelegatedTotalIff` | contracts/token-votes/src/lib.rs:239-273 | after a plain delegation the total is still the sum of the recorded balances if and only if the delegator had a plain delegation, or nothing on record |
| `TokenVotes.RedelegatedShifts` | contracts/token-votes/src/lib.rs:190-308 | after a plain delegation what every account holds beyond the delegations on file is what it was, plus the delegator's old shares exactly if it had no plain delegation |
| `TokenVotes.ResplitTotal` | contracts/token-votes/src/split_delegation.rs:246-304 | a split over any earlier distribution keeps the total the sum of the recorded balances |
| `TokenVotes.ResplitShifts` | contracts/token-votes/src/split_delegation.rs:246-304 | a split over any earlier distribution leaves no shares behind |
| `TokenVotes.RevokedTotal` | contracts/token-votes/src/lib.rs:311-362 | a revocation keeps the total the sum of the recorded balances |
| `TokenVotes.RevokedShifts` | contracts/token-votes/src/lib.rs:311-362 | nor does a revocation leave shares behind |
| `TokenVotes.ShiftedBackedIff` | contracts/token-votes/src/lib.rs:239-273 | exact accounts stay exact under such a change if and only if no shares of a positive balance are left behind |
| `TokenVotes.ShiftedKeepsGrounded` | contracts/token-votes/src/lib.rs:190-308 | accounts that hold at least what the delegations give, with sound checkpoints, still do after any of these changes |
| `TokenVotes.RefreshedNotLater` | contracts/token-votes/src/lib.rs:224-236 | the weighted start ledger never lies in the future |
| `VotingLedger.CreditMoves` | contracts/token-votes/src/lib.rs:707-770 | crediting an account changes the sum of all lookups by the delta from now on, and no lookup before |
| `VotingLedger.CreditPartsMoves` | contracts/token-votes/src/split_delegation.rs:190-218 | crediting the parts of a split moves exactly their sum |
| `VotingLedger.CreditPartsPower` | contracts/token-votes/src/split_delegation.rs:190-218 | and gives every account exactly its share |
| `VotingLedger.CoveredIsSound` | contracts/token-votes/src/lib.rs:224-240 | accounts that hold what delegations give them, or more, have votes that are not negative and were not acquired in the future |
| `VotingLedger.SoundAfter` | contracts/token-votes/src/lib.rs:707-770 | so every checkpoint ever written is sound |
| `PastVotes.VotesAddUp` | contracts/token-votes/src/invariant_tests.rs:196-319 | without time weighting the accounts' answers at a balanced ledger add up exactly |
| `PastVotes.TimeWeightedVotesAddUp` | contracts/token-votes/src/lib.rs:555-617 | with time weighting, rounding loses at most one vote per account and makes none |
| `PastVotes.FoundIsSound` | contracts/token-votes/src/lib.rs:576-579 | a lookup in sound books is not negative and has a non-negative bonus |
| `PastVotes.AnswerIs` | contracts/token-votes/src/lib.rs:568-579 | an answer is nothing without positive votes, the votes without time weighting, and else the votes and the total held by then over the scale, rounded toward zero |
| `Checkpoints.RecordAt` | contracts/token-votes/src/lib.rs:665-770 | a change at a ledger leaves earlier lookups alone and adds its delta to all later ones; the list stays sorted |
| `Checkpoints.AtMeans` | contracts/token-votes/src/lib.rs:772-777 | a lookup is the newest checkpoint not above the ledger, and nothing before the first one |
| `Checkpoints.BinarySearch` | contracts/token-votes/src/lib.rs:778-810 | the binary search computes that lookup |
| `Checkpoints.FirstAbove` | contracts/token-votes/src/lib.rs:1050-1061 | the shared search loop finds the first checkpoint above a ledger |
| `Checkpoints.PruneAccount` | contracts/token-votes/src/lib.rs:1100-1150 | the kept suffix and the number of checkpoints dropped for an account |
| `Checkpoints.PruneTotal` | contracts/token-votes/src/lib.rs:1037-1083 | the kept suffix and the number dropped for the total |
| `Checkpoints.PruneAccountKeepsLookups` | contracts/token-votes/src/lib.rs:1085-1091 | pruning an account changes no lookup from the cutoff on |
| `Checkpoints.PruneTotalKeepsLookupIff` | contracts/token-votes/src/lib.rs:1037-1083 | pruning the total keeps a lookup from the cutoff on exactly if nothing was dropped before a later checkpoint, or the ledger reaches the first one kept, or the votes were zero |
| `Checkpoints.PruneTotalForgets` | contracts/token-votes/src/lib.rs:1060-1083 | a concrete history whose total reads 0 instead of 100 after pruning |
| `SplitDelegation.ValidateSplits` | contracts/token-votes/src/split_delegation.rs:62-97 | no error exactly for non-empty, distinct, positive weights that sum to 10000 within the target limit; else the error of the first check that fails |
| `SplitDelegation.SplitAmount` | contracts/token-votes/src/split_delegation.rs:102-117 | the part of an entry, with the remainder going to the last one |
| `SplitDelegation.PartsSumToTotal` | contracts/token-votes/src/split_delegation.rs:99-101 | the parts always add up to the balance |
| `SplitDelegation.PartIsProportional` | contracts/token-votes/src/split_delegation.rs:99-117 | every part is non-negative and lies within one unit per entry of the proportional share; all but the last are rounded down |
| `DelegationGraph.ResolveChain` | contracts/token-votes/src/delegation_registry.rs:72-100 | the whole chain from an address, failing exactly if it is not over after 64 hops |
| `DelegationGraph.ValidateDelegation` | contracts/token-votes/src/delegation_registry.rs:133-145 | accepts exactly the edges whose delegatee's chain ends within the limit and avoids the delegator |
| `DelegationGraph.EdgeKeepsAcyclicIff` | contracts/token-votes/src/delegation_registry.rs:336-342 | a new edge keeps an acyclic graph acyclic if and only if the delegator is not on the delegatee's chain |
| `DelegationGraph.ValidatedEdge` | contracts/token-votes/src/delegation_registry.rs:133-145 | an accepted edge keeps the graph acyclic and the delegator's chain within the limit |
| `DelegationGraph.RevokeKeepsAcyclic` | contracts/token-votes/src/lib.rs:338-345 | revoking or returning to self-delegation keeps the graph acyclic |
| `DelegationGraph.DepthKeptIff` | contracts/token-votes/src/delegation_registry.rs:139-144 | all chains stay within the limit if and only if every chain that comes to the delegator leaves room for the new one |
| `DelegationGraph.DepthCanExceedLimit` | contracts/token-votes/src/delegation_registry.rs:139-144 | two accepted delegations that make a chain longer than the limit |
| `DelegationGraph.UncheckedEdgeCanCloseCycle` | contracts/token-votes/src/split_delegation.rs:223-241 | an edge the check would refuse, written by a one-entry split, closes a cycle |
| `EventLog.ScanCoversWindow` | sdk/src/votes.ts:1353-1406 | what a scan delivers, with the tails its pages cut put back, is exactly the log from its first ledger to its last |
| `EventLog.ScanCompleteIff` | sdk/src/votes.ts:1353-1406 | a scan is complete if and only if no page cuts a ledger |
| `EventLog.EveryScanCompleteIff` | sdk/src/votes.ts:1353-1406 | every scan from a ledger on is complete, whatever its pages, if and only if no two events from there on share a ledger |
| `EventLog.OneByOneIff` | sdk/src/votes.ts:1353-1406 | so is already a scan in pages of one event that came to the end of the log |
| `EventLog.ScanUpToIff` | sdk/src/events.ts:586-604 | up to a ledger a scan is complete if and only if no page cuts anything off up to there and the scan stopped behind all of it |
| `EventLog.ScanInOrder` | sdk/src/events.ts:586-604 | a scan delivers in log order, nothing twice, nothing from outside its window |
| `EventLog.ScanAppend` | sdk/src/votes.ts:1353-1409 | scans chained through their cursors are one scan |
| `DelegationIndex.StartLedger` | sdk/src/votes.ts:1326-1335 | a cursor other than 0 decides where a scan starts, else the given ledger, else it is 17280 ledgers ago but not before ledger 1 |
| `DelegationIndex.Index.Absorb` | sdk/src/votes.ts:1374-1405 | one page is folded into the map and its highest ledger found |
| `DelegationIndex.Index.BuildIncremental` | sdk/src/votes.ts:1315-1417 | a call ends, scans at most the cap, and leaves the map as the fold of the pages received, even on failure; these are the server's answers, asked for page by page with a limit of 100 or of what is left of the cap; it returns the cursor behind them exactly when the cap is used up before the latest ledger |
| `DelegationIndex.Index.BuildInSteps` | sdk/src/votes.ts:651-653 | calls chained through cursors, with a cap of at least one, each with its own server and latest ledger, end and are one scan folded into the map; once finished they received all events from the start on if and only if no page received cut a ledger, which is sure if no two events share a ledger, and with a cap of one only then |
| `DelegationIndex.ZeroCapStays` | sdk/src/votes.ts:1353-1409 | with a cap of zero a call receives nothing and its cursor stays |
| `DelegationIndex.LastEventWins` | sdk/src/votes.ts:1377-1398 | the last event about a delegator decides its entry |
| `DelegationIndex.Untouched` | sdk/src/votes.ts:1377-1398 | a delegator without events keeps its entry |
| `DelegationIndex.RescanRepairs` | sdk/src/votes.ts:1410-1416 | a finished scan that cuts no ledger gives the same map whatever pages an earlier, failed scan from the same ledger has left in it |
| `DelegationIndex.RescanRepairsIff` | sdk/src/votes.ts:1410-1416 | events received after others give the same map as alone if and only if the others changed nothing about delegators that they do not mention |
| `DelegationIndex.RescanCanKeepRemains` | sdk/src/votes.ts:1410-1416 | a repeated scan that cuts a ledger and leaves an entry of the failed one in the map |
| `DelegationIndex.FinishedScansAgree` | sdk/src/votes.ts:1315-1417 | capped and uncapped finished scans give the same map when no page cuts a ledger |
| `DelegationIndex.FinishedScanIsComplete` | sdk/src/votes.ts:1370-1373 | a finished scan has seen everything from its start if and only if no page cut a ledger |
| `DelegationIndex.CapCanLoseEvents` | sdk/src/votes.ts:1353-1355 | a cap of one event and two events in one ledger give a different map |
| `ProposalEvents.ProgressIff` | sdk/src/events.ts:595-601 | the loop moves on exactly if the page has a decodable event or the server has not fallen behind |
| `ProposalEvents.BehindServerRepeats` | sdk/src/events.ts:595-601 | a server that has nothing and stays at ledger 3 makes the loop ask from ledger 4 for ever |
| `ProposalEvents.GetProposalEvents` | sdk/src/events.ts:572-605 | against an honest server the loop ends with exactly what the pages asked for deliver, in order, without repetition, decodable and from the start on; that is everything up to latest if and only if no page cut off any of it and nothing is left behind the last page; a loop that did not stop blind returns everything if no two decodable events share a ledger; every returned event lies at or above fromLedger and ledger 1, and if the loop was not blind and no page cut anything off, an event of the log from there to latest is returned exactly if it decodes |
| `ProposalEvents.ProposalEventsCompleteIff` | sdk/src/events.ts:572-605 | when what pages deliver is exactly the decodable events of the range |
| `ProposalEvents.BlindPageLosesEvent` | sdk/src/events.ts:595-598 | a log and a server for which the loop returns nothing although an event is in range |
| `ProposalEvents.FetchedIsPage` | sdk/src/events.ts:292-317 | decoding a page of the log gives a page of the decodable log |
| `ReplayEvents.Collect` | scripts/simulate.ts:350-370 | against an arbitrary server the loop ends and records nothing above toLedger; against an honest one it scans the range |
| `ReplayEvents.CollectCompleteIff` | scripts/simulate.ts:350-370 | and records exactly the range if and only if no page cut off one of its events |
| `TopicSubscription.Subscription.Poll` | sdk/src/events.ts:252-281 | one poll, with its failure and unsubscription points, implements the step function |
| `TopicSubscription.PollIs` | sdk/src/events.ts:265-281 | an answered poll hands over the decodable accepted events of the answer up to and including the first whose callback throws or unsubscribes, then moves behind the answer's latest ledger unless a callback threw; who unsubscribed while it waited is given nothing |
| `TopicSubscription.FirstPollIs` | sdk/src/events.ts:256-263 | the first poll that learns the latest ledger starts there; until then nothing happens |
| `TopicSubscription.UnsubscribeStops` | sdk/src/events.ts:286-289 | unsubscribing stops the subscription and does nothing else |
| `TopicSubscription.RunKeepsInvariant` | sdk/src/events.ts:252-281 | in every honest run of sequential polls, for a callback that throws first on no page, the deliveries are in log order, pairwise different, decodable, accepted and behind the cursor |
| `TopicSubscription.AtMostOnceIff` | sdk/src/events.ts:273-280 | no honest run ever delivers an event twice if and only if no event of the log, on a page that can hold it, is the first taken one that does not return and throws |
| `TopicSubscription.SafePage` | sdk/src/events.ts:273-280 | a page that throws comes from such an event |
| `TopicSubscription.ExactlyOnceIff` | sdk/src/events.ts:252-281 | a subscription that nobody unsubscribes, whose callback throws first on no page, has delivered exactly the wanted events up to its cursor if and only if no poll cut a wanted event off its first 100 |
| `TopicSubscription.HundredAndFirstIsLost` | sdk/src/events.ts:265-277 | a first poll over 101 wanted events in one ledger delivers a hundred and moves on |
| `TopicSubscription.StepStaysCaughtUpIff` | sdk/src/events.ts:265-277 | the same for one poll |
| `TopicSubscription.ExactlyOnceFromStart` | sdk/src/events.ts:256-263 | in particular from the poll that learned the latest ledger |
| `TopicSubscription.BehindCursorIsLost` | sdk/src/events.ts:265-277 | an undelivered event behind the cursor is never delivered |
| `TopicSubscription.LargeWindowLosesRest` | sdk/src/events.ts:277-277 | what a window holds beyond 100 events is never delivered |
| `TopicSubscription.FailedPollIff` | sdk/src/events.ts:256-280 | a failed poll delivers nothing and keeps an unsubscription made meanwhile; otherwise it leaves everything as it was unless it was the first and learned the latest ledger |
| `TopicSubscription.StoppedForGood` | sdk/src/events.ts:286-289 | once stopped, no later action changes or delivers anything |
| `TopicSubscription.ThrowRedelivers` | sdk/src/events.ts:273-280 | after a callback throws, the next poll with the same answer delivers the page up to there again |
| `StreamClient.RunKeepsInvariant` | sdk/src/streamEvents.ts:103-229 | in every reachable state at most one interval, socket and timeout is alive, a socket excludes the other two, some source is alive while not stopped, and the handler saw only matching events |
| `StreamClient.MessageDelivers` | sdk/src/streamEvents.ts:148-198 | in every state a message hands its event over exactly if each of the four parts of the filter that is set lets it through, the parts written out |
| `StreamClient.PollDelivers` | sdk/src/streamEvents.ts:127-141 | in every state an answered poll hands over exactly the matching proposals, in order, up to and including the first whose handler throws |
| `StreamClient.RunDelivers` | sdk/src/streamEvents.ts:103-229 | over every run the handler is given exactly what the callbacks hand over in this way, one after the other |
| `StreamClient.PollsAfter` | sdk/src/streamEvents.ts:117-146 | in every reachable state the server is asked at each interval and whenever polling begins; polls end by an answer or a failure |
| `StreamClient.UnsubscribedForGood` | sdk/src/streamEvents.ts:220-228 | after unsubscribing, under any later callbacks, no interval, timeout or socket is alive and none has been created |
| `StreamClient.SilentIff` | sdk/src/streamEvents.ts:122-145 | after unsubscribing, no later run delivers anything if and only if no waiting poll and no closing socket can bring a matching event |
| `StreamClient.DeliversAfterUnsubscribing` | sdk/src/streamEvents.ts:189-228 | a fresh stream that is unsubscribed and whose closing socket then delivers any event the filter lets through |
| `StreamClient.UnsubscribeLeaves` | sdk/src/streamEvents.ts:220-228 | the polls and the socket of the moment of unsubscribing are the ones that may still deliver |
| `StreamClient.NoSocketAgain` | sdk/src/streamEvents.ts:164-176 | without a socket and a pending reconnect there is never a socket again |
| `StreamClient.SocketAgainIff` | sdk/src/streamEvents.ts:161-215 | there can be a socket now or later if and only if a socket or a reconnect is alive |
| `StreamClient.OneFailedReconnect` | sdk/src/streamEvents.ts:161-215 | a fresh stream whose socket closes and whose next socket cannot be constructed polls, and has no socket in any later run |
| `StreamClient.ClosedSchedulesReconnect` | sdk/src/streamEvents.ts:204-215 | a closed socket leaves exactly one pending reconnect, and its firing gives a socket again |
| `StreamClient.Stream.constructor` | sdk/src/streamEvents.ts:103-218 | a fresh stream connects and satisfies the invariant |
| `StreamClient.Stream.ConnectNow` | sdk/src/streamEvents.ts:161-176 | connecting implements the step function in all three outcomes |
| `StreamClient.Stream.OnOpen` | sdk/src/streamEvents.ts:178-180 | the open handler implements its step |
| `StreamClient.Stream.OnMessage` | sdk/src/streamEvents.ts:189-198 | the message handler implements its step; a throwing handler is ignored |
| `StreamClient.Stream.OnClose` | sdk/src/streamEvents.ts:204-209 | the close handler implements its step |
| `StreamClient.Stream.OnTimeout` | sdk/src/streamEvents.ts:208-214 | the reconnect timeout implements its step |
| `StreamClient.Stream.OnPollAnswered` | sdk/src/streamEvents.ts:122-141 | the second half of a poll implements its step; a throwing handler ends the page |
| `StreamClient.Stream.OnUnsubscribe` | sdk/src/streamEvents.ts:220-228 | unsubscribing implements its step |
| `Gini.ComputeGini` | sdk/src/votes.ts:1453-1467 | the sorted shortcut returns exactly the pairwise Gini coefficient, for every list of integers |
| `Gini.PairSumOfSorted` | sdk/src/votes.ts:1461-1466 | on a sorted list the sum of all pairwise differences is the weighted sum of the shortcut |
| `Gini.ShortcutIsDefinition` | sdk/src/votes.ts:1466-1466 | 2W/(nT) - (n+1)/n is the mean absolute difference over twice the mean |
| `Gini.GiniBounds` | sdk/src/votes.ts:1446-1452 | the coefficient lies between 0 and (n-1)/n, is 0 exactly if all powers are equal and (n-1)/n exactly if one account holds everything |
| `Gini.GiniPermutation` | sdk/src/votes.ts:1456-1456 | it does not depend on the order |
| `Gini.GiniScale` | sdk/src/votes.ts:1446-1452 | it does not change when all powers are multiplied by the same positive number |
| `PowerDistribution.Distribution` | sdk/src/votes.ts:763-798 | the figures are those of the distinct delegatees with positive power |
| `PowerDistribution.ConcentrationInRange` | sdk/src/votes.ts:750-761 | the concentration is between 0 and (n-1)/n for n active delegates |
| `PowerDistribution.DelegatedWithinTotal` | sdk/src/votes.ts:785-790 | in every reachable state of the contract, with and without time weighting, the delegated power shown and the votes of accounts missing from the map stay within the contract's own total for the current ledger and reach it up to one vote per account lost to rounding; votes are missing exactly if a missing account holds power |
| `PowerDistribution.CurrentIsAnswer` | contracts/token-votes/src/lib.rs:378-397 | the current votes of an account are its past votes at the current ledger |
| `DelegateRanking.GroupByDelegate` | sdk/src/votes.ts:697-701 | groups hold exactly the delegators, delegatees are listed once, and the group sizes add up to the size of the map |
| `DelegateRanking.QueryInBatches` | sdk/src/votes.ts:704-730 | querying in batches of 20 equals querying one by one |
| `DelegateRanking.RankingIsPermutation` | sdk/src/votes.ts:732-740 | the ranking is descending and holds exactly the delegates with positive power, each as often as before |
| `DelegateRanking.RankedOnce` | sdk/src/votes.ts:697-740 | every delegatee with power is in the ranking, and none is there twice |
| `DelegateRanking.RankedAreTrue` | sdk/src/votes.ts:721-726 | every ranked delegate shows its current power, base votes, and its number of delegators |
| `DelegateRanking.FirstPageIsTop` | sdk/src/votes.ts:734-741 | nobody outside the first page outranks anybody on it |
| `DelegateRanking.PagesConcatenate` | sdk/src/votes.ts:741-741 | pages at offsets 0, L, 2L, ... give the ranking without gap or repetition |
| `DelegateRanking.ClampedLimit` | sdk/src/votes.ts:673-674 | limits end up between 1 and 100, 50 if none is given |
| `DelegateRanking.TopDelegates` | sdk/src/votes.ts:671-748 | the page holds delegates with power, with their true figures, by descending power and nobody twice; the first page leaves out only delegates that no one on it is weaker than; every page is a slice of the whole ranking |
| `IntegerSqrt.NewtonRoot` | fuzz/fuzz_targets/quadratic_voting_extreme.rs:38-46 | for every positive 128-bit word the loop ends after at most 129 steps, without overflow, with the floor of the root |
| `IntegerSqrt.VerifySqrtBounds` | fuzz/fuzz_targets/quadratic_voting_extreme.rs:28-53 | none exactly for negative input, else the floor of the root |
| `IntegerSqrt.StepStaysAbove` | fuzz/fuzz_targets/quadratic_voting_extreme.rs:42-45 | a Newton step never falls below the root |
| `IntegerSqrt.StepHalvesDistance` | fuzz/fuzz_targets/quadratic_voting_extreme.rs:42-45 | and at least halves the distance to it |
| `IntegerSqrt.StepFits` | fuzz/fuzz_targets/quadratic_voting_extreme.rs:44-44 | the sum of a step stays inside 128 bits |
| `IntegerSqrt.ApplyVoteType` | contracts/governor/src/lib.rs:889-908 | quadratic weight is the root of the raw weight as an unsigned word, hence of the raw weight itself exactly if that is not negative |
| `IntegerSqrt.NegativeWeight` | contracts/governor/src/lib.rs:894-906 | a raw weight of -9 counts as 2^64 - 1 |
| `SignalPayload.MessageLayout` | sdk/src/signaling.ts:47-47 | tag, poll, choice, voter and nonce in this order, with bars between them |
| `SignalPayload.DecimalIs` | sdk/src/signaling.ts:47-47 | numbers are rendered as decimal digits without a leading zero |
| `SignalPayload.MessageInjective` | sdk/src/signaling.ts:41-49 | the message determines poll, choice, voter and nonce for voters without a bar and any nonce |
| `SignalPayload.SameMessageIff` | sdk/src/signaling.ts:47-47 | what the message determines for any voter and nonce |
| `SignalPayload.AmbiguousIff` | sdk/src/signaling.ts:47-47 | another voter and nonce make the same text exactly if one of the two holds a bar |
| `SignalPayload.HashedBytesInjective` | sdk/src/signaling.ts:47-48 | the bytes that are hashed determine the vote for voters without a bar, if the encoder replaces nothing in voter and nonce |
| `SignalPayload.SameBytesIff` | sdk/src/signaling.ts:47-48 | for all voter and nonce texts of UTF-16 units: equal bytes are hashed if and only if poll, choice and what the encoder reads for voter and nonce together agree |
| `SignalPayload.SameHashIff` | sdk/src/signaling.ts:47-48 | another voter or nonce text gives the same bytes if and only if a bar, or a replacement character, is read in one of the two |
| `SignalPayload.EncodedAlikeIff` | sdk/src/signaling.ts:48-48 | another text is encoded alike if and only if the encoder reads a replacement character |
| `SignalPayload.SurrogatesEncodeAlike` | sdk/src/signaling.ts:48-48 | two texts of one unpaired surrogate each that are encoded alike |
| `SignalPayload.UnitsOfScalars` | sdk/src/signaling.ts:48-48 | a text read without a replacement is given back by its characters |
| `SignalPayload.EncodeInjective` | sdk/src/signaling.ts:48-48 | different sequences of characters have different UTF-8 encodings |
| `SignalPayload.EncodingOf` | sdk/src/signaling.ts:48-48 | the bytes of every character, as UTF-8 lays them out |
| `SignalPayload.FirstRead` | sdk/src/signaling.ts:48-48 | how the encoder reads UTF-16 units: pairs of surrogates as one character, unpaired ones as U+FFFD |
| `SignalPayload.Sep53Payload` | sdk/src/signaling.ts:85-90 | the framed payload is the encoding of prefix and message, one after the other |
| `SignalPayload.Set` | sdk/src/signaling.ts:89-90 | copying into the buffer changes exactly the addressed bytes |
| `HexCodec.RenderThenParse` | sdk/src/utils.ts:113-130 | rendering 32 bytes and parsing, with or without 0x, gives them back |
| `HexCodec.ParseThenRenderIff` | sdk/src/utils.ts:113-130 | accepted text renders back to its lower-case form exactly if it consists of hex digits |
| `HexCodec.LenientText` | sdk/src/utils.ts:122-128 | a text of 64 characters, half of them no digits, that is accepted |
| `HexCodec.HexToBytes32` | sdk/src/utils.ts:113-130 | the errors, their positions, and the bytes of accepted text |
| `HexCodec.PairParses` | sdk/src/utils.ts:122-126 | which pairs of characters the runtime's parser accepts, and as what |
| `HexCodec.RenderAt` | sdk/src/signaling.ts:60-60 | the two digits of every byte |
| `HexCodec.DigitsAre` | sdk/src/signaling.ts:60-60 | the sixteen digits and their values |
| `HexCodec.NegativePair` | sdk/src/utils.ts:122-128 | a minus and a digit are stored as 256 minus the digit |
| `TtlCache.Cache.Lookup` | backend/src/cache.ts:12-19 | a hit returns the value of the latest completion that no invalidation has followed, less than its time to live old; a miss means there is none |
| `TtlCache.Cache.Complete` | backend/src/cache.ts:19-22 | a completion stores its value and keeps entries and history in step |
| `TtlCache.Cache.Fail` | backend/src/cache.ts:19-19 | a failed computation, which was under way, stores nothing and is over |
| `TtlCache.Cache.Invalidate` | backend/src/cache.ts:25-29 | exactly the given keys are removed |
| `TtlCache.Cache.InvalidatePattern` | backend/src/cache.ts:31-37 | exactly the keys with the prefix are removed |
| `TtlCache.Cache.GetMetrics` | backend/src/cache.ts:39-41 | hits, misses and size are reported; hits and misses add up to the calls since the last reset |
| `TtlCache.Cache.ResetMetrics` | backend/src/cache.ts:43-46 | the counters start again; entries stay |
| `TtlCache.FreshAfterInvalidationIff` | backend/src/cache.ts:19-29 | after an invalidation no later run can serve a value computed before it if and only if no computation for the key was under way |
| `Retry.WithRetry` | sdk/src/utils.ts:139-169 | calls go up to the first success, first error not retried, or last attempt, whose outcome is the result; between two calls it sleeps the delay and 0.3 times it times the random number |
| `Retry.DelaysGrow` | sdk/src/utils.ts:159-159 | delays before jitter never go down and never exceed the cap |
| `Retry.DelaysDouble` | sdk/src/utils.ts:159-159 | the first delay is the base and each further one twice the one before, within the cap |
| `Retry.TotalSleep` | sdk/src/utils.ts:159-165 | all sleeps together are at most 1.3 times the cap per sleep |
| `Scenario.FullPeriod` | scripts/simulate.ts:171-180 | the words after two numbers of draws are equal if and only if the numbers differ by a multiple of 2^32: the generator has full period |
| `Scenario.FirstNumbers` | scripts/simulate.ts:171-180 | the first two numbers for seed 0 are 1144304738 and 1416247, in units of 2^-32 |
| `Scenario.Generator.Below` | scripts/simulate.ts:211-211 | each draw is the next number of the seed's stream, scaled below its bound |
| `Scenario.GenerateRandomScenario` | scripts/simulate.ts:189-253 | the scenario is a function of seed and sizes, none for fewer than one actor |
| `Scenario.ScenarioForm` | scripts/simulate.ts:189-253 | for every stream of numbers: valid actors, one block per proposal with ids 1, 2, ..., and a snapshot at the end |
| `Scenario.ActorsDrawn` | scripts/simulate.ts:198-205 | number i of the stream decides the balance of actor i: 100 and the number times 9900, rounded down |
| `Scenario.BlockDrawn` | scripts/simulate.ts:210-220 | a block takes the next number for the proposer and the one after it for the number of rounds, at least one |
| `Scenario.RoundDrawn` | scripts/simulate.ts:221-228 | a round takes the next number for the voter and, unless that actor has voted, one more for the support |
| `Scenario.RoundsForm` | scripts/simulate.ts:221-229 | at least one vote, at most one per round, by different existing actors |
| `Scenario.GenerateVotes` | scripts/simulate.ts:221-229 | the loop casts exactly the votes of the rounds drawn, skipping actors drawn again |
| `Scenario.VotesInTime` | scripts/simulate.ts:212-230 | every vote falls behind the voting delay and within the voting period of its own proposal, which is over when the next block starts |
| `Scenario.ScenarioSize` | scripts/simulate.ts:207-232 | between 4P+1 and P(3+max(1,A-1))+1 steps |
| `ReportDiff.CompareReports` | scripts/simulate.ts:276-312 | deltas are later minus earlier; newly failing are exactly the steps that fail in the second report, the last under an index under which the first has a step that passed, newly passing the other way round; identical are reports of one scenario with zero deltas of counts and final ledger and no such steps |
| `ReportDiff.TurnedInOrder` | scripts/simulate.ts:282-289 | both lists follow the order of the first report |
| `ReportDiff.SwapNegates` | scripts/simulate.ts:276-312 | swapping the reports negates every delta and swaps newly failing with newly passing steps |
| `ReportDiff.IdenticalIff` | scripts/simulate.ts:303-309 | what identical reports agree in |
| `ReportDiff.ReflexiveIff` | scripts/simulate.ts:280-289 | a report is identical to itself exactly if steps with the same index have the outcome of the last of them |
| `ReportDiff.IdenticalTransitiveIff` | scripts/simulate.ts:303-309 | identity carries over from the first to the third report if and only if the steps these share and the middle one lacks have equal outcomes |
| `ReportDiff.IdenticalNotTransitive` | scripts/simulate.ts:285-286 | three reports for which it does not |
| `ResultShares.ShareIs` | app/src/components/SignalResultsChart.tsx:16-17 | every share is its choice's part of the weight, rounded down to a tenth of a per cent |
| `ResultShares.SharesNearlyComplete` | app/src/components/SignalResultsChart.tsx:14-17 | shares in tenths of a per cent add up to at most 1000 and at least 1000 - (n-1) |
| `ResultShares.BarsFit` | app/src/components/SignalResultsChart.tsx:9-15 | bars end at 100 per cent, reached by a choice with votes exactly if none has more |
| `ResultShares.BarIs` | app/src/components/SignalResultsChart.tsx:15-15 | a bar's length is its total in relation to the largest one, rounded down to a tenth of a per cent |

## Left out

- DelegationIndex.Index.BuildInSteps: is stated for caps of at least one event; with a cap of zero the chain of calls has no end (ZeroCapStays).
- StreamClient.Enabled: the poll's id comparison, which compares texts, is left to the runtime; delivery order in polling mode is not modelled.
- Numbers: `Number` conversions, double rounding and `Math.sqrt` in weights are exact integers and reals here.
- The 32- and 128-bit ranges of the voting contract: a call that overflows reverts, and is not modelled.
- Numbers whose JavaScript rendering is not plain decimal (from 1e21 on); poll and choice ids are natural numbers.
- Text lengths: outside the signaling payload characters are Unicode scalar values, so the 64-character check of the hexadecimal parser counts those, not UTF-16 units.
- SHA-256, ed25519, XDR, JSON and base64, including the encoding of cursors and topic filters.
- Event names: the voting contract publishes `DelegateChanged` where the index asks for `del_chsh` (`contracts/token-votes/src/lib.rs:304-307`, `sdk/src/votes.ts:1338-1341`). The index also puts `del_chsh` and `del_revk` into one positional topic filter (`sdk/src/votes.ts:1338-1341`, `sdk/src/votes.ts:1359-1365`), which by the rules of getEvents asks for events with the first as topic 0 and the second as topic 1. The model's server answers the question meant: events of either kind.
- Network calls, clocks, sleeping and balances: they are arguments. A failed answer stands for a call that has used up its retries. A scan call that fails to learn the latest ledger receives nothing, and is not modelled.
- Overlapping polls of one subscription; only sequential polls are modelled.
- Re-entrant calls from within a fetch function or a socket constructor.
- Authorization checks, contract events and storage lifetimes.
- Delegation registry records, received-delegation lists and profiles: bookkeeping beside the graph.
- Batch, transfer-and-delegate and signature delegation: they check and then call the modelled delegation.
- The direct checkpoint entry point as an operation of the contract: it breaks conservation. Runs that include it are in module DirectWrites, without the total. There pruning reaches all accounts, while the contract's list lacks those that only direct writes have touched; their old checkpoints stay, which changes lookups behind the cutoff only.
- The return count and event of pruning; the account list is the set of accounts with checkpoints.
- Stability of the runtime's sort among delegates with equal power.
- The chart is modelled for one total per choice.
- The governor's proposal lifecycle, timelock, treasury and liquidity contracts, the indexer and the user interface beyond the chart.
