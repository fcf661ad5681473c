# Verified models of the chain core, its tools and its contracts

This project models the parts of the repository where a mistake is hardest to see, and proves what
they are for. The theorems are stated for all inputs, all runs or all reachable states; where a
property fails, a concrete input shows it and the theorem names the condition under which it holds.

- **Undo sessions of the state database** (`UndoIndex.dfy`, `GenericIndex.dfy`). The index keeps only
  what changed since a session began. It is proved to behave, over every sequence of operations, as a
  stack of full copies; undone sessions leave no trace, squashed sessions compose.
- **Finality** (`Slots.dfy`, `Dpos.dfy`, `DposFinality.dfy`, `DposRuns.dfy`). Block headers are applied
  one after another; the history of who confirmed which block is kept beside them. From genesis,
  nothing becomes irreversible without a quorum of distinct producers, no completed quorum is missed,
  and two conflicting branches share more than a third of the producers.
- **Fork database** (`Forks.dfy`, `ForkDatabase.dfy`). The tree of unfinished blocks under every
  operation, the choice of head, removal of whole branches, moving the root, and the meeting point of
  two branches.
- **Authorities** (`AuthorityCheck.dfy`, `AuthorityExact.dfy`, `AuthorityKeys.dfy`,
  `AuthorityMarks.dfy`, `AuthorityChecker.dfy`). The recursive check with its cache against a
  least-fixpoint meaning, and which keys it marks as used.
- **Merkle roots** (`Merkle.dfy`). The incremental tree against the level-by-level root.
- **Wide conversions** (`Powers.dfy`, `FloatToInt.dfy`, `IntToFloat.dfy`). Binary floats to and from
  128-bit integers, for any significand and exponent width; the encodings follow section 3.4 and the
  truncation section 5.8 of IEEE 754-2008.
- **Reflection checker** (`FieldMatch.dfy`, `FieldMatcher.dfy`, `Reflections.dfy`, `Braces.dfy`,
  `ScopeReader.dfy`). The two-cursor comparison of a class with its reflection, and the scope reader.
- **Names, permission log, memos** (`NameSuffix.dfy`, `PermissionVisitor.dfy`, `Memo.dfy`).

Where the code and its names or comments disagree, the model follows the code:

- `clz_power_2` counts trailing zeros (`Merkle.ClzCountsTrailingZeros`).
- The double-confirmation guard wraps when a producer that has produced before claims more
  confirmations than there are blocks; `Dpos.GuardIsExact` gives the bound and
  `DposRuns.WrappedGuardLosesQuorum` a chain from genesis beyond it.
- The last irreversible block can go back after a new schedule takes over
  (`DposRuns.TakeoverCanLoseGround`, a chain from genesis). `DposFinality.TakeoversDecide` gives the
  exact condition on the state that each takeover leaves.
- The signed float conversion wraps for exponent 127 (`FloatToInt.SignedSaturatesIff`).
- With a cycle below the checked authority the authority checker can miss a permission, and a key
  that decided the verdict can be reported unused because a failed authority gives its keys back
  while the cache keeps the permission they satisfied (`AuthorityKeys`).
- Squashing an outermost session differs from not opening it when the index is renumbered inside
  (`UndoIndex.RenumberedSessionShows`); `UndoIndex.AbsorbedSessionIsTransparent` gives the exact
  condition on the operations.
- Moving the root of the fork database past the head fails after the new root was taken out
  (`ForkDatabaseModel.ForkDatabase.AdvanceRoot`).
- A swap that could be dropped may still be accepted (`FieldMatch.NeedlessSwapGoesUnnoticed`);
  `FieldMatch.RedundantSwapCanGo` says exactly which.
- The scope reader does not see an opening brace that is the last character of the text.
- A repeated swap declaration fails while formatting its message (line 524 of the checker), so it is
  rejected either way.
- The memo parser ignores whatever follows the digits of the id, further commas included.

Files of pure arithmetic are functions and lemmas; objects that the source updates in place are
classes whose methods are proved against the functions. `Options.dfy` holds the shared option type.

## Model

| member | source | states |
|---|---|---|
| UndoIndex.RestoreAfterCreate | DreamChainCore/libraries/chainbase/include/chainbase/chainbase.hpp:549-554 | creating a row leaves what an undo of the open session restores unchanged, and the record still describes the session |
| UndoIndex.RestoreAfterModify | DreamChainCore/libraries/chainbase/include/chainbase/chainbase.hpp:512-525 | the same for modifying a row, whether or not its first value is already recorded |
| UndoIndex.RestoreAfterRemove | DreamChainCore/libraries/chainbase/include/chainbase/chainbase.hpp:527-547 | the same for removing a row that the session created, changed or left alone |
| UndoIndex.RestoreMerged | DreamChainCore/libraries/chainbase/include/chainbase/chainbase.hpp:354-455 | undoing a squashed record equals undoing the child session and then its parent, for every pair of records |
| UndoIndex.MergeTable | DreamChainCore/libraries/chainbase/include/chainbase/chainbase.hpp:366-404 | the squash acts on each row by the sixteen-entry table of the source, and the entries the table calls impossible never meet |
| UndoIndex.MergeAssociative | DreamChainCore/libraries/chainbase/include/chainbase/chainbase.hpp:354-455 | three nested sessions squash to the same record in either order |
| UndoIndex.RecordIsMerge | DreamChainCore/libraries/chainbase/include/chainbase/chainbase.hpp:512-554 | recording one operation is squashing a session that does only that operation |
| UndoIndex.RecordThenMerge | DreamChainCore/libraries/chainbase/include/chainbase/chainbase.hpp:354-455 | recording in the child and squashing equals squashing and recording in the parent |
| UndoIndex.StepRowRefines | DreamChainCore/libraries/chainbase/include/chainbase/chainbase.hpp:204-238 | create, modify and remove keep the index valid and act on the stack of full copies as plain row operations |
| UndoIndex.StartRefines | DreamChainCore/libraries/chainbase/include/chainbase/chainbase.hpp:301-310 | opening a session pushes a full copy |
| UndoIndex.SquashRefines | DreamChainCore/libraries/chainbase/include/chainbase/chainbase.hpp:354-455 | squashing drops the youngest full copy and keeps the rows, including the case of a single open session |
| UndoIndex.RevisionAt | DreamChainCore/libraries/chainbase/include/chainbase/chainbase.hpp:301-310 | the revisions of the records count down from the current revision without gaps |
| UndoIndex.CommitRefines | DreamChainCore/libraries/chainbase/include/chainbase/chainbase.hpp:460-466 | committing to a revision drops exactly the copies up to it |
| UndoIndex.StepRefines | DreamChainCore/libraries/chainbase/include/chainbase/chainbase.hpp:301-486 | every operation keeps the index valid and refines the stack of full copies |
| UndoIndex.RunRefines | DreamChainCore/libraries/chainbase/include/chainbase/chainbase.hpp:204-493 | over every sequence of operations the recorded changes stand for the stack of full copies |
| UndoIndex.UndoAllRestoresOldest | DreamChainCore/libraries/chainbase/include/chainbase/chainbase.hpp:471-475 | undoing everything restores the oldest copy and its next id, and closes every session |
| UndoIndex.RevertedSessionIsIdentity | DreamChainCore/libraries/chainbase/include/chainbase/chainbase.hpp:321-346 | a session with any nested operations inside, once undone, leaves the whole state as it was |
| UndoIndex.AbsorbedSessionIsTransparent | DreamChainCore/libraries/chainbase/include/chainbase/chainbase.hpp:354-455 | a session with any nested operations inside, once squashed, leaves the state those operations alone would leave; for an outermost session everything but the revision, and the revision too if and only if the last renumbering among the operations that lies outside every session and fits, read off the operations alone, is to the old revision (or there is none) |
| UndoIndex.RenumberedSessionShows | DreamChainCore/libraries/chainbase/include/chainbase/chainbase.hpp:354-361 | renumbering inside an outermost session is refused and outside it is not, so such a session shows |
| GenericIndexModel.GenericIndex.constructor | DreamChainCore/libraries/chainbase/include/chainbase/chainbase.hpp:192-193 | an index starts with no rows, no sessions, next id 0 |
| GenericIndexModel.GenericIndex.Emplace | DreamChainCore/libraries/chainbase/include/chainbase/chainbase.hpp:204-222 | creates a row under the next id; the state moves as the create step |
| GenericIndexModel.GenericIndex.Change | DreamChainCore/libraries/chainbase/include/chainbase/chainbase.hpp:228-233 | moves the state as the modify step |
| GenericIndexModel.GenericIndex.RemoveObject | DreamChainCore/libraries/chainbase/include/chainbase/chainbase.hpp:488-493 | a missing id is refused and nothing changes; otherwise the state moves as the remove step |
| GenericIndexModel.GenericIndex.StartUndoSession | DreamChainCore/libraries/chainbase/include/chainbase/chainbase.hpp:301-310 | moves the state as the start step and returns the new revision |
| GenericIndexModel.GenericIndex.Undo | DreamChainCore/libraries/chainbase/include/chainbase/chainbase.hpp:321-346 | the three loops over the record together restore the rows, and the state moves as the undo step |
| GenericIndexModel.GenericIndex.Squash | DreamChainCore/libraries/chainbase/include/chainbase/chainbase.hpp:354-455 | the three merging loops together build the merged record, and the state moves as the squash step |
| GenericIndexModel.GenericIndex.MergeUpdates | DreamChainCore/libraries/chainbase/include/chainbase/chainbase.hpp:408-424 | the loop over old values builds the old values of the merged record before removals |
| GenericIndexModel.GenericIndex.MergeCreations | DreamChainCore/libraries/chainbase/include/chainbase/chainbase.hpp:426-428 | the loop over new ids adds them all |
| GenericIndexModel.GenericIndex.MergeDeletions | DreamChainCore/libraries/chainbase/include/chainbase/chainbase.hpp:430-451 | the loop over removed rows gives the old values, removed rows and new ids of the merged record |
| GenericIndexModel.GenericIndex.CommitTo | DreamChainCore/libraries/chainbase/include/chainbase/chainbase.hpp:460-466 | the loop pops exactly the records at or below the revision |
| GenericIndexModel.GenericIndex.UnwindAll | DreamChainCore/libraries/chainbase/include/chainbase/chainbase.hpp:471-475 | undoes every open session |
| GenericIndexModel.GenericIndex.SetRevision | DreamChainCore/libraries/chainbase/include/chainbase/chainbase.hpp:477-486 | refused while sessions are open or when the number does not fit a signed 64-bit integer; otherwise only the revision changes |
| Slots.Index | DreamChainCore/unittests/producer_schedule_tests.cpp:25-28 | the owner of a slot is a position of the schedule, for every non-empty schedule and repetition count |
| Slots.EveryRoundIsFair | DreamChainCore/unittests/producer_schedule_tests.cpp:25-28 | every window of one round, wherever it starts, gives each position exactly its repetitions |
| Slots.RoundLater | DreamChainCore/unittests/producer_schedule_tests.cpp:25-28 | one round later the same position owns the slot |
| Slots.TurnsInARow | DreamChainCore/unittests/producer_schedule_tests.cpp:25-28 | a position owns its repetitions in consecutive slots and the next position follows, the first after the last |
| Slots.TurnComes | DreamChainCore/unittests/producer_schedule_tests.cpp:25-28 | every position owns a slot within one round after any given one |
| Slots.NextRoundFirst | DreamChainCore/unittests/producer_schedule_tests.cpp:42-49 | the search ends within one round and returns the least multiple of the round length above the head |
| Slots.RoundBoundary | DreamChainCore/unittests/producer_schedule_tests.cpp:25-28 | a multiple of the round length belongs to position 0 and the slot before it to the last position |
| Dpos.ScheduledIndex | DreamChainCore/libraries/chain/block_header_state.cpp:12-16 | the scheduled producer index lies in the schedule |
| Dpos.TwelveInARow | DreamChainCore/libraries/chain/block_header_state.cpp:12-16 | every producer has twelve slots in a row, in the order of the schedule |
| Dpos.AcceptedIff | DreamChainCore/libraries/chain/block_header_state.cpp:32-258 | a header is accepted if and only if its slot is later and belongs to its producer, the guard lets it confirm, it carries the version of the active schedule, and a new schedule comes as the next version while none is pending |
| Dpos.SchedulesAfter | DreamChainCore/libraries/chain/block_header_state.cpp:116-258 | which schedule is active after an accepted header, and which waits for which block |
| Dpos.RecordsAfter | DreamChainCore/libraries/chain/block_header_state.cpp:116-165 | who is on record after an accepted header, with and without a promotion, and with which last produced and last implied block |
| Dpos.NthIsLib | DreamChainCore/libraries/chain/block_header_state.cpp:18-30 | the element one third into the sorted votes is the highest number that more than two thirds support |
| Dpos.LibIsHighestSupermajority | DreamChainCore/libraries/chain/block_header_state.cpp:18-30 | the computed last irreversible block is the highest one a supermajority votes for, 0 without votes |
| Dpos.RequiredIsSupermajority | DreamChainCore/libraries/chain/block_header_state.cpp:70-71 | the confirmations a block needs are the least number above two thirds of the producers |
| Dpos.ConfirmLoop | DreamChainCore/libraries/chain/block_header_state.cpp:84-108 | the loop takes down the counters of the confirmed blocks and cuts the list at the youngest one that reaches zero |
| Dpos.NotConfirmedTwice | DreamChainCore/libraries/chain/block_header_state.cpp:45-51 | a header that passes the guard, and whose count does not reach below block 0 if its producer has produced before, confirms no block its producer has already confirmed |
| Dpos.GuardIsExact | DreamChainCore/libraries/chain/block_header_state.cpp:45-51 | in 32-bit arithmetic the guard is right if and only if the confirmed range does not reach below block 0 |
| DposRuns.WrappedGuardLosesQuorum | DreamChainCore/libraries/chain/block_header_state.cpp:45-51 | beyond that bound a chain of accepted headers from genesis gets block 5 proposed as irreversible, confirmed by one producer where three are needed |
| Dpos.StepCounts | DreamChainCore/libraries/chain/block_header_state.cpp:69-108 | after a header within the range of the guard each counter is the number of confirmations its block still lacks, and a block found by the loop has its full quorum of distinct producers |
| Dpos.LibIsAVote | DreamChainCore/libraries/chain/block_header_state.cpp:110-111 | the last irreversible block was proposed before and has its quorum |
| Dpos.ApplyKeepsInv | DreamChainCore/libraries/chain/block_header_state.cpp:32-258 | every accepted header within the range of the guard keeps the invariant that ties counters, votes and schedules to who really confirmed what |
| Dpos.CompletedIsProposed | DreamChainCore/libraries/chain/block_header_state.cpp:83-104 | if a header completes the quorum of a block that is not proposed yet and is among the last 1024, the youngest such block is proposed; otherwise the proposal stays |
| Dpos.ChainKeepsInv | DreamChainCore/libraries/chain/block_header_state.cpp:32-258 | so does every chain of such headers |
| Dpos.ChainIsSafe | DreamChainCore/libraries/chain/block_header_state.cpp:32-258 | from genesis, over every chain of accepted headers within the range of the guard, whatever is proposed or irreversible was confirmed by the required number of distinct producers |
| Dpos.ChainMissesNoQuorum | DreamChainCore/libraries/chain/block_header_state.cpp:32-258 | on every such chain no block among the last 1024 and above the proposed one has been confirmed by a quorum |
| DposFinality.LibHoldsIff | DreamChainCore/libraries/chain/block_header_state.cpp:18-30 | the next last irreversible block falls behind exactly when a third or more of the producers' votes lag |
| DposFinality.SteadyLibHolds | DreamChainCore/libraries/chain/block_header_state.cpp:18-30 | it does not fall behind while a supermajority votes for the current one |
| DposFinality.VoteKeepsSupport | DreamChainCore/libraries/chain/block_header_state.cpp:110-111 | recording the producer's vote keeps a supermajority behind the computed block |
| DposFinality.UnpromotedStepIsSteady | DreamChainCore/libraries/chain/block_header_state.cpp:110-162 | a step that promotes no schedule leaves a supermajority of the recorded votes behind its last irreversible block |
| DposFinality.HeaderHoldsIff | DreamChainCore/libraries/chain/block_header_state.cpp:110-111 | an accepted header keeps the last irreversible block if and only if fewer than a third of the votes, its producer's aside, lag behind it |
| DposFinality.UnfirmFalls | DreamChainCore/libraries/chain/block_header_state.cpp:18-30 | when that fails for some producer of the schedule, a header of that producer within the next round of 32-bit slots is accepted and takes the last irreversible block back |
| DposFinality.HoldsIffFirm | DreamChainCore/libraries/chain/block_header_state.cpp:18-30 | no accepted header with a 32-bit slot takes the last irreversible block back if and only if it holds for every producer of the schedule |
| DposFinality.TakeoversDecide | DreamChainCore/libraries/chain/block_header_state.cpp:32-258 | on a chain from genesis no header with a 32-bit slot could ever have taken the last irreversible block back, if and only if every promotion leaves such a state |
| DposFinality.LibIsMonotone | DreamChainCore/libraries/chain/block_header_state.cpp:32-258 | on a chain from genesis whose promotions leave such states the last irreversible block never decreases from any block to a later one |
| DposFinality.PromotionLaggards | DreamChainCore/libraries/chain/block_header_state.cpp:115-162 | after a promotion the lagging votes are exactly the old ones of producers kept in the new schedule |
| DposFinality.QuorumsOverlap | DreamChainCore/libraries/chain/block_header_state.cpp:70-71 | any two sets of confirmers of the required size share more than a third of the producers |
| DposFinality.ConflictingBranches | DreamChainCore/libraries/chain/block_header_state.cpp:32-258 | when two branches from one state, without a promotion, act on blocks of their own, more than a third of the producers confirmed both, one on each branch |
| DposRuns.TakeoverCanLoseGround | DreamChainCore/libraries/chain/block_header_state.cpp:115-162 | a chain of accepted headers from genesis makes block 5 irreversible, promotes a schedule, and its next header makes a smaller block the last irreversible one |
| Merkle.MerkleRoot | DreamChainCore/libraries/chain/merkle.cpp:35-50 | the vector halved in place ends in the root of the level-by-level tree, the empty digest without leaves |
| Merkle.HashPairs | DreamChainCore/libraries/chain/merkle.cpp:42-46 | hashing pairs into the front of the same vector reads no overwritten entry |
| Merkle.ClzCountsTrailingZeros | DreamChainCore/libraries/chain/include/eosio/chain/incremental_merkle.hpp:38-50 | for every power of two in 64 bits the function named for leading zeros counts trailing zeros |
| Merkle.DepthIsBitLength | DreamChainCore/libraries/chain/include/eosio/chain/incremental_merkle.hpp:59-65 | for every index of up to 64 bits the maximal depth is its bit length plus one, also where the next power of two no longer fits |
| Merkle.DepthOfCount | DreamChainCore/libraries/chain/include/eosio/chain/incremental_merkle.hpp:59-65 | that holds for every node count up to the last one before the 64-bit counter wraps |
| Merkle.SinglePeakIsRoot | DreamChainCore/libraries/chain/include/eosio/chain/incremental_merkle.hpp:233-239 | a tree with one complete subtree has that subtree's root as its root |
| Merkle.PeaksOfAppend | DreamChainCore/libraries/chain/include/eosio/chain/incremental_merkle.hpp:168-226 | appending a node changes the complete subtrees as a binary counter carries |
| Merkle.ClimbLeft | DreamChainCore/libraries/chain/include/eosio/chain/incremental_merkle.hpp:179-192 | on a left node the path and the list of active nodes stay those of the extended tree |
| Merkle.ClimbRight | DreamChainCore/libraries/chain/include/eosio/chain/incremental_merkle.hpp:193-208 | on a right node the next old active node is the left sibling |
| Merkle.ClimbDone | DreamChainCore/libraries/chain/include/eosio/chain/incremental_merkle.hpp:215-219 | at the top the hash is the root and the collected nodes are the active nodes of the extended tree |
| Merkle.IncrementalMerkle.constructor | DreamChainCore/libraries/chain/include/eosio/chain/incremental_merkle.hpp:97-99 | an empty tree |
| Merkle.IncrementalMerkle.Append | DreamChainCore/libraries/chain/include/eosio/chain/incremental_merkle.hpp:168-226 | after every append the stored nodes are those of the longer leaf list and the returned root is its level-by-level root |
| Merkle.IncrementalMerkle.GetRoot | DreamChainCore/libraries/chain/include/eosio/chain/incremental_merkle.hpp:233-239 | the stored root is the root of all leaves appended so far, the empty digest without leaves |
| AuthorityCheck.HoldsIff | DreamChainCore/libraries/chain/include/eosio/chain/authority_checker.hpp:182-204 | what follows from keys, delays and given permissions is closed under the rule of weights and thresholds, in both directions |
| AuthorityCheck.HoldsIsLeast | DreamChainCore/libraries/chain/include/eosio/chain/authority_checker.hpp:182-204 | and is contained in every set closed under that rule |
| AuthorityCheck.SortedIsOrdered | DreamChainCore/libraries/chain/include/eosio/chain/authority_checker.hpp:33-46 | the factors are visited heaviest first, of equal weight waits before keys before accounts, each exactly once |
| AuthorityCheck.TallyOfSorted | DreamChainCore/libraries/chain/include/eosio/chain/authority_checker.hpp:33-46 | sorting does not change what the met factors weigh |
| AuthorityCheck.TallyFits | DreamChainCore/libraries/chain/include/eosio/chain/authority.hpp:162-163 | with 16-bit weights and the allowed number of factors the sum fits in 32 bits |
| AuthorityCheck.CheckSound | DreamChainCore/libraries/chain/include/eosio/chain/authority_checker.hpp:182-269 | on every permission graph, from every cache that is right about satisfied permissions, a positive verdict is justified and the cache stays right |
| AuthorityCheck.SatisfiedIsSound | DreamChainCore/libraries/chain/include/eosio/chain/authority_checker.hpp:112-145 | from the start, an authority found satisfied is met and a permission found satisfied holds |
| AuthorityExact.CheckExact | DreamChainCore/libraries/chain/include/eosio/chain/authority_checker.hpp:182-269 | when the permissions to be looked into below the authority form no cycle and stay within the depth limit, the verdict is positive if and only if the authority is met; the rest of the database does not matter |
| AuthorityExact.SatisfiedIsExact | DreamChainCore/libraries/chain/include/eosio/chain/authority_checker.hpp:112-145 | the same from the start, for authorities and for permissions |
| AuthorityExact.CheckUsed | DreamChainCore/libraries/chain/include/eosio/chain/authority_checker.hpp:182-204 | a failed check marks no key as used and a successful one unmarks none |
| AuthorityMarks.CheckMarks | DreamChainCore/libraries/chain/include/eosio/chain/authority_checker.hpp:182-233 | a successful check marks only keys of the authority and of the authorities of permissions below it that hold; a failed one marks none |
| AuthorityMarks.HeaviestFirst | DreamChainCore/libraries/chain/include/eosio/chain/authority_checker.hpp:33-45 | factors are visited from the heaviest to the lightest, of equal weight waits before keys before accounts |
| AuthorityMarks.SortedIsStable | DreamChainCore/libraries/chain/include/eosio/chain/authority_checker.hpp:189-194 | factors of one kind and weight are visited in the order of the authority |
| AuthorityMarks.DirectCheck | DreamChainCore/libraries/chain/include/eosio/chain/authority_checker.hpp:182-233 | an authority of keys and waits is satisfied if and only if its shares reach the threshold, and the keys newly marked are exactly the provided ones among the fewest factors, heaviest first, that reach it |
| AuthorityKeys.CycleHidesAPermission | DreamChainCore/libraries/chain/include/eosio/chain/authority_checker.hpp:236-268 | with a cycle the verdict can be negative although the authority is met |
| AuthorityKeys.UsedKeysSuffice | DreamChainCore/libraries/chain/include/eosio/chain/authority_checker.hpp:182-269 | when each permission to be looked into below the authority, at any depth, is named by one authority only or, where no cycle is reached within the depth limit, is reached only through permissions that hold, the keys marked as used satisfy the authority by themselves |
| AuthorityKeys.HeldOwnerIsTraceable | DreamChainCore/libraries/chain/include/eosio/chain/authority_checker.hpp:182-269 | a permission named by two authorities can meet that condition |
| AuthorityKeys.DecidingKeyReportedUnused | DreamChainCore/libraries/chain/include/eosio/chain/authority_checker.hpp:182-268 | without that condition a key that decided the verdict can be reported as unused |
| AuthorityCheckerModel.AuthorityChecker.constructor | DreamChainCore/libraries/chain/include/eosio/chain/authority_checker.hpp:72-88 | no key is used at the start |
| AuthorityCheckerModel.AuthorityChecker.Satisfied | DreamChainCore/libraries/chain/include/eosio/chain/authority_checker.hpp:137-145 | the verdict and the marks are those of the check from the start, with the marks of earlier checks kept |
| AuthorityCheckerModel.AuthorityChecker.PermissionSatisfied | DreamChainCore/libraries/chain/include/eosio/chain/authority_checker.hpp:112-120 | the same for a single permission |
| AuthorityCheckerModel.AuthorityChecker.SatisfiedAt | DreamChainCore/libraries/chain/include/eosio/chain/authority_checker.hpp:182-204 | the loop over the sorted factors, with early exit and restored marks, computes the check |
| AuthorityCheckerModel.AuthorityChecker.VisitFactor | DreamChainCore/libraries/chain/include/eosio/chain/authority_checker.hpp:220-268 | one factor: delay, key or permission, with the cache updated around the nested check |
| Forks.PathNums | DreamChainCore/libraries/chain/fork_database.cpp:361-369 | block numbers count down along a branch to one above the root |
| Forks.UnderIsOnPath | DreamChainCore/libraries/chain/fork_database.cpp:444-458 | the descendants of a block are the blocks with it on their branch |
| Forks.QueueIsUnder | DreamChainCore/libraries/chain/fork_database.cpp:449-458 | the removal queue ends as the block and exactly its descendants |
| Forks.BranchIsSuffix | DreamChainCore/libraries/chain/fork_database.cpp:361-369 | a trimmed branch is the whole branch with its front cut off at the block number |
| ForkDatabaseModel.ForkDatabase.constructor | DreamChainCore/libraries/chain/fork_database.cpp:232-238 | after a reset only the root is there, and it is the head |
| ForkDatabaseModel.ForkDatabase.RollbackHeadToRoot | DreamChainCore/libraries/chain/fork_database.cpp:240-250 | every block becomes unvalidated, the head is the root, nothing else changes |
| ForkDatabaseModel.ForkDatabase.Add | DreamChainCore/libraries/chain/fork_database.cpp:299-343 | refuses an unlinked block and a duplicate unless told to ignore it; otherwise the tree gains exactly the block, and if any block is valid the head is the valid block with the newest last irreversible block, then the highest number, then the smallest hash |
| ForkDatabaseModel.ForkDatabase.MarkValid | DreamChainCore/libraries/chain/fork_database.cpp:467-485 | the block becomes valid, and no valid block has a newer last irreversible block than the head, or the same one and a higher number; the head moves only for a strictly better block, the one with the smallest hash |
| ForkDatabaseModel.ForkDatabase.PendingHead | DreamChainCore/libraries/chain/fork_database.cpp:349-359 | no block at all has a newer last irreversible block than the returned one, or the same one and a higher number; it is the head unless an unvalidated block is strictly better, then the one with the smallest hash |
| ForkDatabaseModel.ForkDatabase.FetchBranch | DreamChainCore/libraries/chain/fork_database.cpp:361-369 | returns the branch of a block without the blocks above the trim number, nothing for an unknown block |
| ForkDatabaseModel.ForkDatabase.SearchOnBranch | DreamChainCore/libraries/chain/fork_database.cpp:371-378 | finds the block with the number on the branch if and only if the number lies above the root and not above the block |
| ForkDatabaseModel.ForkDatabase.FetchBranchFrom | DreamChainCore/libraries/chain/fork_database.cpp:384-441 | for two known blocks no lookup fails and the two results are the parts of the branches above their lowest common ancestor; unknown blocks are refused |
| ForkDatabaseModel.ForkDatabase.Descendants | DreamChainCore/libraries/chain/fork_database.cpp:444-458 | collects the block and its descendants, and fails if and only if the head is among them |
| ForkDatabaseModel.ForkDatabase.Remove | DreamChainCore/libraries/chain/fork_database.cpp:444-465 | exactly the block and its descendants go, unless the head would go, in which case nothing changes; the tree and the choice of head stay valid |
| ForkDatabaseModel.ForkDatabase.Ancestors | DreamChainCore/libraries/chain/fork_database.cpp:262-267 | the walk to the root lists every block below the new root and never meets an orphan |
| ForkDatabaseModel.ForkDatabase.AdvanceRoot | DreamChainCore/libraries/chain/fork_database.cpp:252-283 | succeeds if and only if the block is known, valid and at or below the head; then exactly the blocks above it stay, on it as root; a failure because of the head leaves the block taken out and removes exactly the branches that leave its chain above the first block shared with the head |
| FloatToInt.DecodeEncode | DreamChainCore/libraries/builtins/fp32.h:10-19 | field triples and encodings correspond one to one |
| FloatToInt.LibraryFormats | DreamChainCore/libraries/builtins/fp64.h:10-19 | the single and double formats are instances of 32 and 64 bits with biases 127 and 1023, and the integers have 128 bits |
| FloatToInt.ShiftedIsIntegerPart | DreamChainCore/libraries/builtins/fixunssfti.c:35-40 | both shift branches compute the integer part of the encoded value, within its power-of-two range |
| FloatToInt.UnsignedSaturates | DreamChainCore/libraries/builtins/fixunssfti.c:19-41 | for every encoding of every format: the integer part, 0 when the sign is set, all ones beyond 2^128 - 1 and for infinities and NaNs |
| FloatToInt.UnsignedInRange | DreamChainCore/libraries/builtins/fixunsdfti.c:15-37 | below 2^128 the shift loses nothing to the integer width |
| FloatToInt.UnsignedMonotone | DreamChainCore/libraries/builtins/fixunsdfti.c:24-36 | larger encodings convert to integers at least as large |
| FloatToInt.WidenThenConvert | DreamChainCore/libraries/builtins/fixunsdfti.c:15-37 | widening a normal value to a larger format first gives the same integer |
| FloatToInt.SignedSaturatesIff | DreamChainCore/libraries/builtins/fixsfti.c:16-40 | for every encoding, infinities and NaNs included, the signed conversion is the saturated truncation if and only if the exponent is not 127 or the value is exactly -2^127 |
| FloatToInt.SignedIsOdd | DreamChainCore/libraries/builtins/fixdfti.c:16-41 | below 2^127 flipping the sign negates the result |
| IntToFloat.RoundGuardedMeans | DreamChainCore/libraries/builtins/floattidf.c:56-59 | the two guard bits round up above the half, and at the half when the kept part is odd |
| IntToFloat.GuardedMeans | DreamChainCore/libraries/builtins/floattidf.c:45-55 | the guard and sticky bits tell whether the dropped part is zero, below, at or above the half, in each of the three shift cases |
| IntToFloat.RoundsToNearestEven | DreamChainCore/libraries/builtins/floattidf.c:26-79 | the result is the nearest multiple of the last kept place, the even one on a tie |
| IntToFloat.RoundedExactIff | DreamChainCore/libraries/builtins/floattidf.c:26-79 | the integer survives if and only if its excess bits are zero |
| IntToFloat.FloatPartsValue | DreamChainCore/libraries/builtins/floattidf.c:60-78 | the assembled fields encode exactly the rounded integer, with and without a carry |
| IntToFloat.UnsignedIsRounded | DreamChainCore/libraries/builtins/floatuntidf.c:26-76 | every unsigned integer is encoded, within the width of the format, as the nearest number with that many significant bits, the even one on a tie; 0 as 0 |
| IntToFloat.SignedIsRounded | DreamChainCore/libraries/builtins/floattidf.c:26-79 | every signed integer is encoded as its sign and the number nearest to its magnitude, the even one on a tie; 0 as 0 |
| IntToFloat.UnsignedThereAndBack | DreamChainCore/libraries/builtins/floatuntidf.c:26-76 | converting to a float and back gives the rounded integer, or all ones when rounding reached 2^128 |
| IntToFloat.UnsignedRoundTripIff | DreamChainCore/libraries/builtins/floatuntidf.c:26-76 | the unsigned round trip is the identity exactly on the representable integers and on 2^128 - 1 |
| IntToFloat.SignedRoundTripIff | DreamChainCore/libraries/builtins/floattidf.c:26-79 | the signed round trip is the identity exactly on the integers of representable magnitude |
| IntToFloat.DoubleIsRoomy | DreamChainCore/libraries/builtins/floattidf.c:35-35 | the double format, with 53 significant bits, meets the conditions of the rounding theorems |
| IntToFloat.SignedMaxComesBackNegative | DreamChainCore/libraries/builtins/fixdfti.c:16-41 | the largest signed integer comes back as the smallest |
| FieldMatch.MatchesSameNames | DreamChainCore/tools/validate_reflection.py:631-694 | under a matching claim the reflected names are the class fields that are not ignored |
| FieldMatch.KeptAtCursor | DreamChainCore/tools/validate_reflection.py:640-679 | at every stop of the class cursor the unswapped names behind both cursors agree |
| FieldMatch.SwapCanGoIff | DreamChainCore/tools/validate_reflection.py:645-651 | a swap can be dropped from a matching claim if and only if the names kept before the field agree in the class and in the reflection |
| FieldMatch.RedundantSwapCanGo | DreamChainCore/tools/validate_reflection.py:645-651 | when the redundant-swap check fires, dropping that swap leaves the claim matching; the swaps that could be dropped without the check firing are exactly those whose kept names agree but whose place the cursor is not at |
| FieldMatch.Trimmed | DreamChainCore/tools/validate_reflection.py:645-651 | every matching claim has a smaller set of swaps that still matches and has no redundant one |
| FieldMatch.NeedlessSwapGoesUnnoticed | DreamChainCore/tools/validate_reflection.py:645-651 | a swap that could be dropped is not always found |
| FieldMatcher.StepKeepsInv | DreamChainCore/tools/validate_reflection.py:640-679 | each iteration keeps what the two cursors determine about the four working lists |
| FieldMatcher.StepAdvances | DreamChainCore/tools/validate_reflection.py:640-679 | each iteration advances a cursor and neither passes its end |
| FieldMatcher.StopMeans | DreamChainCore/tools/validate_reflection.py:640-679 | a failed check in the loop means the claim does not match, except for the redundant-swap check, which means exactly that |
| FieldMatcher.CloseMeans | DreamChainCore/tools/validate_reflection.py:681-694 | after the loop the closing checks pass if and only if the claim matches |
| FieldMatcher.CompareMeans | DreamChainCore/tools/validate_reflection.py:624-694 | the comparison accepts if and only if the claim matches and no swap is redundant; a matching claim can only fail the redundant-swap check |
| FieldMatcher.RejectedMeans | DreamChainCore/tools/validate_reflection.py:645-694 | every rejection has the reason that the failed check reports |
| FieldMatcher.TrimmedIsAccepted | DreamChainCore/tools/validate_reflection.py:624-694 | every matching claim is accepted once its redundant swaps are dropped |
| ReflectionsModel.DeclaredWellFormed | DreamChainCore/tools/validate_reflection.py:510-531 | an accepted ignore or swap keeps the lists free of repetitions and apart from each other |
| ReflectionsModel.Reflections.constructor | DreamChainCore/tools/validate_reflection.py:391-402 | no class is known |
| ReflectionsModel.Reflections.FindOrAdd | DreamChainCore/tools/validate_reflection.py:489-493 | returns the known reflection or an empty one, which is then known |
| ReflectionsModel.Reflections.AddField | DreamChainCore/tools/validate_reflection.py:533-537 | appends the field behind the others, or refuses it exactly when it is there already, though the class is then known |
| ReflectionsModel.Reflections.AddIgnoreSwaps | DreamChainCore/tools/validate_reflection.py:510-531 | ignored names go behind the ignored list and swapped names behind the swapped list, up to the first name that is repeated or in either list already; all are accepted if and only if there is no such name |
| ReflectionsModel.Walked | DreamChainCore/tools/validate_reflection.py:640-679 | the loop on the mutable lists runs as the model of one iteration after another |
| ReflectionsModel.Closed | DreamChainCore/tools/validate_reflection.py:681-694 | the closing checks on the mutable lists |
| ReflectionsModel.Reflections.Validate | DreamChainCore/tools/validate_reflection.py:624-694 | accepts if and only if the claim matches without a redundant swap, and a rejection has the reason it reports; on acceptance the ignore and swap lists have been emptied; other classes are untouched |
| ReflectionsModel.IdMayBeLeftOut | DreamChainCore/tools/validate_reflection.py:624-628 | a class of an id and the reflected fields is accepted if and only if it is stored in the database |
| Braces.ParseIffBalanced | DreamChainCore/tools/validate_reflection.py:110-124 | a level of scopes exists if and only if every brace opened in it is closed, and it ends at the first unmatched closing brace |
| Braces.ParseIsStructure | DreamChainCore/tools/validate_reflection.py:110-124 | every opening brace starts one scope and every closing brace ends one, in order, nested as the braces are |
| ScopeReader.WindowFollowsRule | DreamChainCore/tools/validate_reflection.py:138-164 | whatever the widened search window is, a scope opens at the next opening brace if and only if it precedes the next closing one; an opening brace as last character is not seen |
| ScopeReader.LevelContinues | DreamChainCore/tools/validate_reflection.py:151-164 | a scope found extends the level read so far by that scope |
| ScopeReader.LevelDone | DreamChainCore/tools/validate_reflection.py:119-124 | when no scope is found the level is complete and ends at the next closing brace |
| ScopeReader.Scope.constructor | DreamChainCore/tools/validate_reflection.py:95-108 | a scope starts after its brace; only the outermost one knows its end |
| ScopeReader.Scope.Read | DreamChainCore/tools/validate_reflection.py:110-124 | reading yields exactly the scopes of the level and its end, and fails if and only if a brace is left open |
| ScopeReader.Scope.NextScope | DreamChainCore/tools/validate_reflection.py:151-353 | in both kinds of scope the next scope is read whole, with all scopes in it, and the cursor moves behind it |
| ScopeReader.BalancedTextIsRead | DreamChainCore/tools/validate_reflection.py:110-124 | a text with balanced braces is read completely: all opening and all closing braces, correctly nested |
| ScopeReader.ReadText | DreamChainCore/tools/validate_reflection.py:600-601 | reading a file from position 0 fails if and only if a brace is left open, and on balanced braces yields all opening and closing braces, correctly nested |
| NameSuffix.Scan | DreamChainCore/unittests/misc_tests.cpp:91-106 | the loop over the first twelve characters and the test of the last one find the place of the last dot with something after it |
| NameSuffix.ScanMeans | DreamChainCore/unittests/misc_tests.cpp:91-109 | that place is 0 exactly when no dot precedes a character |
| NameSuffix.CombinedIs | DreamChainCore/unittests/misc_tests.cpp:113-117 | the two shifted parts neither overlap nor lose a bit in 64-bit arithmetic |
| NameSuffix.Suffix | DreamChainCore/unittests/misc_tests.cpp:90-118 | for every 64-bit name: the characters after its last actual dot, moved to the front and filled up with dots; the name itself without such a dot |
| NameSuffix.SuffixIsIdempotent | DreamChainCore/unittests/misc_tests.cpp:90-118 | a suffix has no dot before a character, so its suffix is itself |
| NameSuffix.SuffixShape | DreamChainCore/unittests/misc_tests.cpp:90-118 | only the empty name has an empty suffix, and a shortened name has its last character clear |
| NameSuffix.CharsDetermine | DreamChainCore/unittests/misc_tests.cpp:90-118 | the thirteen characters determine the number, so the suffix is the only name with its characters |
| PermissionVisitorModel.StepRefines | DreamChainCore/unittests/misc_tests.cpp:287-313 | with a level open where one is needed no check fails, the sizes stay ordered within the list, and the step acts as on a stack of whole lists |
| PermissionVisitorModel.RunRefines | DreamChainCore/unittests/misc_tests.cpp:287-313 | the same over every sequence of operations |
| PermissionVisitorModel.PopRestores | DreamChainCore/unittests/misc_tests.cpp:299-306 | a pop restores exactly the list and sizes of the matching push, whatever ran in between |
| PermissionVisitorModel.PermissionVisitor.constructor | DreamChainCore/unittests/misc_tests.cpp:285-285 | empty list, no open level |
| PermissionVisitorModel.PermissionVisitor.Visit | DreamChainCore/unittests/misc_tests.cpp:287-289 | moves the state as the visit step |
| PermissionVisitorModel.PermissionVisitor.PushUndo | DreamChainCore/unittests/misc_tests.cpp:293-297 | moves the state as the push step |
| PermissionVisitorModel.PermissionVisitor.PopUndo | DreamChainCore/unittests/misc_tests.cpp:299-306 | refused exactly when the saved size exceeds the list; otherwise moves the state as the pop step |
| PermissionVisitorModel.PermissionVisitor.SquashUndo | DreamChainCore/unittests/misc_tests.cpp:308-313 | refused exactly without an open level; otherwise moves the state as the squash step |
| Memo.Left | NFT-Contracts/include/service.hpp:21-26 | removes the white prefix |
| Memo.Right | NFT-Contracts/include/service.hpp:29-35 | removes the white suffix |
| Memo.CropIsMaximal | NFT-Contracts/include/service.hpp:38-43 | cropping takes off a white prefix and a white suffix and leaves a text without white ends |
| Memo.CropUndoesPadding | NFT-Contracts/include/service.hpp:38-43 | whatever white space surrounds a text without white ends, cropping gives the text back |
| Memo.CropIsIdempotent | NFT-Contracts/include/service.hpp:38-43 | cropping twice is cropping once |
| Memo.WhiteCharacters | NFT-Contracts/include/service.hpp:21-35 | white space is blank, tab, line feed, vertical tab, form feed and carriage return |
| Memo.ParseFields | NFT-Contracts/include/service.hpp:45-64 | a memo of a comma-free type, a comma-free account of twelve characters and a non-empty rest is read field by field, and fails only on the number |
| Memo.AcceptedHasFields | NFT-Contracts/include/service.hpp:45-64 | no other memo is accepted |
| Memo.AcceptedIff | NFT-Contracts/include/service.hpp:45-64 | a memo is accepted if and only if it has a comma-free type, a comma-free account of twelve characters and a rest that reads as a number |
| Memo.StoullReads | NFT-Contracts/include/service.hpp:61-61 | a number is read with an optional sign and whatever follows its digits, negated in 64 bits for a minus sign, and refused when it does not fit 64 bits |
| Memo.StoullNeedsDigits | NFT-Contracts/include/service.hpp:61-61 | no other text is read as a number |
| Memo.StoullOfDecimal | NFT-Contracts/include/service.hpp:61-61 | a 64-bit number is read back from its decimal form |
| Memo.MemoRoundTrip | NFT-Contracts/include/service.hpp:45-64 | printing an order with any white space around type and number and parsing it gives the order back |

## Left out

- The secondary unique indices of a state table, its session handle objects, and modifiers that change a row's id.
- The database of many tables, its locking and its file format; each table goes through the same operations.
- Signatures, protocol features, schedule hashes and the block merkle tree inside a block header; the header model keeps what the confirmations and schedules depend on.
- Dpos.LibIsHighestSupermajority: `nth_element` is taken by its contract, as the element that sorting would put there.
- Dpos.ChainIsSafe: covers chains whose headers stay within the bound of `Dpos.GuardIsExact` where the guard applies, below 2^32 blocks and at most 125 producers; `DposRuns.WrappedGuardLosesQuorum` shows the bound is needed.
- Dpos.NotConfirmedTwice: headers of a producer that has produced before and whose count reaches below block 0 are excluded, since the guard lets them confirm twice (`Dpos.GuardIsExact`).
- Dpos.StepCounts: the same headers are excluded.
- Dpos.ApplyKeepsInv: the same headers are excluded.
- Dpos.CompletedIsProposed: the same headers are excluded.
- Dpos.ChainKeepsInv: the same headers are excluded.
- DposFinality.UnfirmFalls: asks for one round of 32-bit slots and one 32-bit block number to be left, so that the header exists.
- DposFinality.HoldsIffFirm: asks for the same room.
- DposFinality.TakeoversDecide: asks for a round of the longest schedule to be left at the end of the chain.
- DposFinality.ConflictingBranches: for branches without a promotion.
- Merkle.IncrementalMerkle.Append: the hash is any function of two digests; the append at which the 64-bit node counter wraps is excluded.
- AuthorityExact.SatisfiedIsExact: states exactness when no cycle is reached below the authority, within the depth limit; `AuthorityKeys.CycleHidesAPermission` shows why, and no simpler exact condition is given.
- AuthorityExact.CheckExact: under the same condition.
- AuthorityMarks.DirectCheck: gives the marks exactly for authorities of keys and waits; with accounts they are bounded from above by `AuthorityMarks.CheckMarks` and from below by `AuthorityKeys.UsedKeysSuffice`.
- AuthorityKeys.UsedKeysSuffice: the condition is sufficient, not necessary; a shared permission below an authority that does not hold may still be settled elsewhere first.
- Caches handed in by the caller of the authority checker, delays overridden for one check, and exceptions other than a missing permission.
- AuthorityCheckerModel.AuthorityChecker.Satisfied: total weights are unbounded numbers; `AuthorityCheck.TallyFits` shows that 32 bits hold them for every authority that passes validation.
- ForkDatabaseModel.ForkDatabase.Add: block ids are taken to carry the block number, and the protocol feature check on reading a stored database is not modelled; nor are the file format, `open` and `close`.
- The order in which siblings are queued for removal; the model takes any order.
- The regular expressions, comment rewriting and file walking of the reflection checker, `find_class`, and the reading of fields and aliases; scope labels are an input to the scope reader, and which kind it gives a scope is not part of what is proved.
- ReflectionsModel.Reflections.Validate: the class fields are taken to be distinct, as the compiler requires.
- The 128-bit float format of `fixtfti.c` and `fixunstfti.c`, which the generic conversion theorems cover as one more width but which is read through another header.
- The name constructor of the contract library; the memo model hands it the cropped account text.
- White space and digits are those of the "C" locale.
- Resource limits, ABI serialisation, snapshots, transactions, the web assembly runtime, the plugins, the wallet and the token tables of the contracts.
