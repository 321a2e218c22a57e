# Verified model of the liquidity layer

A Dafny model of the parts of the cross-chain fast-transfer system whose correctness rests on
arithmetic, on state kept over many calls, or on byte layouts. `dafny verify dfyconfig.toml`
checks all of it.

| files | what they model |
|---|---|
| `AuctionState.dfy`, `DepositPenalty.dfy`, `OfferPrices.dfy` | the matching engine's slot boundaries, late-execution penalty and price steps, on bounded integers with the program's saturating operations and truncating casts |
| `SdkPenalty.dfy` | the client SDK's unbounded-integer versions of the same computations |
| `AuctionLifecycle.dfy`, `MatchingEngine.dfy`, `Instructions.dfy`, `LifecycleRuns.dfy`, `FastTransfers.dfy`, `TokenConservation.dfy`, `PlaceMarketOrder.dfy` | one order from its first offer to the closing of its auction: the instruction handlers as sequences of token transfers, when each succeeds and what it leaves in plain sums, what holds over every run of all of them, the whole transfer as one run, and the source-chain checks it relies on |
| `Examples.dfy` | the penalties of the program's own unit test, one complete order in numbers, and two orders whose fees exceed their amount |
| `DecimalOrder.dfy`, `SlotOrderedAuctions.dfy` | the solver's calendar of auctions, including the order its comparator-less sort produces |
| `ArrayQueue.dfy` | the SDK's ring-buffer queue |
| `VaaSpy.dfy` | de-duplication of observed messages with a bounded periodic cleanup |
| `Bytes.dfy`, `CctpMessages.dfy`, `RawDeposit.dfy`, `AuctionHistory.dfy` | the codecs: CCTP messages, raw deposit messages, the auction history account |
| `PostVaa.dfy` | the in-place patch of signature instructions and the loop that pairs them |

Code that updates objects, arrays or maps in place is a class or a method with loops, proved
equal to a specification function; the theorems are lemmas about those functions and about
runs of them. Public keys, hashes and instruction programs are natural numbers: only their
equality is used. The matching engine's clock is part of its state and never goes back; slots,
and the spy's time, are parameters of each step.

Where the code and its surroundings disagree, the code is followed:

- A full `ArrayQueue` loses the value it is given: `enqueue` stores into the array that
  `resize` has just replaced. `FifoIffFits` says which schedules this spares, `OnlyValuesAreLost`
  what it never affects; `EnqueueIntended` is what was meant and is marked as such.
- `SlotOrderedAuctions` does not order slots numerically. `HeadSlotIsSmallestIff` says exactly when
  its head slot is the smallest one, `HeadNotSmallestAcrossDigits` gives a run where it is not.
- The SDK's penalty differs from the program's at the last representable slot of a penalty
  period that saturation cuts short. `SdkAgreesWithProgram` is the exact condition,
  `SdkDiffersAtLastSlot` a case.
- A `VaaSpy` built without saying whether to clean up throws on its first message.
- The matching engine does not check that price and fees fit into an order's amount; it relies
  on the source-chain router, which never publishes an order where they do not
  (`RouterPublishesSoundOrders`). If it were given one, `ExecutableIff` says who could execute it
  and `StuckIff` when nobody at all could: mostly the best offer still can, out of its own stake.
- Nothing in the accounts of a closed auction says that it took place. That the order cannot be
  auctioned or delivered again rests on time alone: `AuctionedAndDeliveredOnce`.

The auction-history reader takes values from fixed places. `ReaderIsExact` says for all bytes
what it returns; every account with both timestamps set, and every new one, is read back. The
program never stores asset info, and its instructions that wrote histories are retired, so the
formats the reader would mistake are not known to exist.

## Model

| member | source | states |
|---|---|---|
| `AuctionState.BoundariesAreClippedSums` | solana/programs/matching-engine/src/state/auction.rs:98-133 | auction end, grace end and penalty end equal the exact sums cut once at the largest slot, stay in order, and only move up with a longer additional grace; a slot is within the auction exactly up to start plus duration; accepted parameters make every phase last a slot exactly while the grace period is not cut |
| `AuctionState.AcceptedIffNothingViolated` | solana/programs/matching-engine/src/utils/auction.rs:66-103 | parameters are accepted exactly with positive periods and base deposit and no share above the whole; an error names what is wrong |
| `DepositPenalties.MulBpsIsExact` | solana/programs/matching-engine/src/utils/auction.rs:116-135 | for a share up to the maximum, the u128 product does not clip, the cast to u64 does not truncate, and the result is the floor and at most the amount |
| `DepositPenalties.ScaledIsExact` | solana/programs/matching-engine/src/utils/auction.rs:38-48 | the decay branch's u128 product, division, cast and saturating additions lose nothing |
| `DepositPenalties.SharesMonotone` | solana/programs/matching-engine/src/utils/auction.rs:106-113 | both shares of a split, one rounded down and one up, grow with the amount |
| `DepositPenalties.DecayBounds` | solana/programs/matching-engine/src/utils/auction.rs:32-48 | the charge on the slope grows with elapsed slots, stays within the deposit, and equals it before the end exactly when nothing was left to decay |
| `DepositPenalties.PenaltyIsExactSplit` | solana/programs/matching-engine/src/utils/auction.rs:15-51 | for accepted parameters the on-chain pair is the exact charge split without loss, and the charge is at most the security deposit |
| `DepositPenalties.ChargeMonotone` | solana/programs/matching-engine/src/utils/auction.rs:15-51 | the total charge never falls with a later slot or a shorter additional grace, across all branches |
| `DepositPenalties.PenaltySharesMonotone` | solana/programs/matching-engine/src/utils/auction.rs:15-51 | neither share ever falls with a later slot or a shorter additional grace |
| `DepositPenalties.PenaltyEndpoints` | solana/programs/matching-engine/src/utils/auction.rs:21-30 | nothing is charged within the auction or up to the grace slot, and the whole deposit from the penalty end on |
| `DepositPenalties.DecayFollowsLine` | solana/programs/matching-engine/src/utils/auction.rs:32-48 | the charge on the slope never exceeds the exact line through the unrounded base and is less than two units below it |
| `DepositPenalties.NotionalDepositIsExact` | solana/programs/matching-engine/src/utils/auction.rs:60-64 | the notional deposit is the exact sum cut at the largest amount, and positive |
| `OfferPrices.MinAllowedOfferBounds` | solana/programs/matching-engine/src/utils/auction.rs:54-57 | one step subtracts the floored delta without underflow and keeps the price within one unit above its exact fraction |
| `OfferPrices.IteratedMinAllowedIsGeometric` | solana/programs/matching-engine/src/utils/auction.rs:54-57 | iterated n times, the bound never rises and loses at most the n-th power of the exact factor |
| `OfferPrices.ImprovementLowersPrice` | solana/programs/matching-engine/src/processor/auction/offer/improve.rs:33-37 | an accepted improvement is strictly lower and gives up at least the unrounded delta |
| `SdkPenalties.SdkAgreesWithProgram` | solana/ts/src/matchingEngine/index.ts:2581-2615 | the SDK and the program return the same pair at every slot, except exactly at the last slot of a cut penalty period with something left to decay |
| `SdkPenalties.SdkDiffersAtLastSlot` | solana/ts/src/matchingEngine/index.ts:2581-2615 | such a slot in numbers: the program takes the whole deposit, the SDK computes 55 % of it |
| `SdkPenalties.SdkAgreesWithoutOverflow` | solana/ts/src/matchingEngine/index.ts:2581-2615 | they agree whenever the penalty period ends at a representable slot |
| `SdkPenalties.SdkMinOfferDeltaIsTight` | solana/ts/src/matchingEngine/index.ts:2617-2620 | the SDK's delta is the smallest decrement the program's improvement check accepts |
| `SdkPenalties.SdkNotionalDepositAgrees` | solana/ts/src/matchingEngine/index.ts:2622-2630 | SDK and program agree on the notional deposit exactly while it fits into 64 bits |
| `MatchingEngineHandlers.MatchingEngine.constructor` | solana/programs/matching-engine/src/state/auction.rs:135-157 | an order starts with no auction and no response, in a consistent state |
| `MatchingEngineHandlers.MatchingEngine.HandlePlaceInitialOffer` | solana/programs/matching-engine/src/processor/auction/offer/place_initial/cctp.rs:29-207 | when not paused, on a matching live path and before deadline and expiry, the first offer stakes amount plus security deposit in custody and opens the auction; otherwise nothing changes |
| `MatchingEngineHandlers.MatchingEngine.CheckFastOrderPath` | solana/programs/matching-engine/src/composite/mod.rs:229-292 | accepts exactly two different live endpoints, the emitter of the order and its target chain |
| `MatchingEngineHandlers.MatchingEngine.HandleImproveOffer` | solana/programs/matching-engine/src/processor/auction/offer/improve.rs:23-157 | a better offer in time swaps the stakes and the price, and nothing else |
| `MatchingEngineHandlers.MatchingEngine.HandleExecuteFastOrder` | solana/programs/matching-engine/src/processor/auction/execute_fast_order/mod.rs:27-242 | execution pays out and closes custody exactly as the shares say, records the penalty, and otherwise changes nothing |
| `MatchingEngineHandlers.MatchingEngine.DistributeCustody` | solana/programs/matching-engine/src/processor/auction/execute_fast_order/mod.rs:70-193 | the sequence of saturating subtractions and transfers equals crediting each account its share and emptying custody, aliased accounts included, and fails exactly when the shares do not fit |
| `MatchingEngineHandlers.MatchingEngine.PayInitiator` | solana/programs/matching-engine/src/processor/auction/execute_fast_order/mod.rs:100-131 | the initiator fee is paid out, or added to what the best offer is owed, with the exact failing conditions |
| `MatchingEngineHandlers.MatchingEngine.PayBidders` | solana/programs/matching-engine/src/processor/auction/execute_fast_order/mod.rs:133-193 | the best offer is repaid and the executor gets exactly what remains |
| `MatchingEngineHandlers.MatchingEngine.HandlePrepareOrderResponse` | solana/programs/matching-engine/src/processor/auction/prepare_order_response/cctp.rs:131-262 | the slow transfer is redeemed into its own custody once; repeating it changes nothing |
| `MatchingEngineHandlers.MatchingEngine.HandleSettleAuctionComplete` | solana/programs/matching-engine/src/processor/auction/settle/complete.rs:78-268 | settlement divides the whole repayment, closes its custody and records fee and total penalty |
| `MatchingEngineHandlers.MatchingEngine.PayRepayment` | solana/programs/matching-engine/src/processor/auction/settle/complete.rs:112-249 | the case analysis over open and equal accounts equals one base-fee payout and the rest to the best offer |
| `MatchingEngineHandlers.MatchingEngine.HandleSettleAuctionNone` | solana/programs/matching-engine/src/processor/auction/settle/none/mod.rs:31-112 | without an auction, or for a local order with only its sequence number reserved, both fees go to the protocol and the rest to the user |
| `MatchingEngineHandlers.MatchingEngine.HandleReserveForAuction` | solana/programs/matching-engine/src/processor/fast_fill/reserve_sequence/active_auction.rs:6-49 | past its auction's duration an active local order gets its one sequence number |
| `MatchingEngineHandlers.MatchingEngine.HandleReserveWithoutAuction` | solana/programs/matching-engine/src/processor/fast_fill/reserve_sequence/no_auction.rs:4-50 | a prepared local order without auction gets its sequence number and an account that keeps any auction from starting |
| `MatchingEngineHandlers.MatchingEngine.HandleCloseAuction` | solana/programs/matching-engine/src/processor/auction/close.rs:9-48 | the account of a settled auction is closed, from the order's expiry on |
| `AuctionLifecycle.ImproveKeepsInv` | solana/programs/matching-engine/src/processor/auction/offer/improve.rs:54-129 | after an improvement custody still covers the stake and the price is still within the maximum fee |
| `AuctionLifecycle.ExecuteKeepsInv` | solana/programs/matching-engine/src/processor/auction/execute_fast_order/mod.rs:27-242 | an execution leaves custody closed and the user paid |
| `AuctionLifecycle.SettleKeepsInv` | solana/programs/matching-engine/src/processor/auction/settle/complete.rs:88-268 | a settlement leaves both custody accounts closed |
| `LifecycleRuns.StepHappensOnce` | solana/programs/matching-engine/src/processor/auction/offer/place_initial/cctp.rs:61-83 | an auction starts only where none has been before, closed ones included, and only an undelivered order is delivered |
| `AuctionLifecycle.CloseKeepsInv` | solana/programs/matching-engine/src/processor/auction/close.rs:14-27 | closing leaves an expired order that was delivered, without program-owned accounts |
| `LifecycleRuns.RunKeepsInv` | solana/programs/matching-engine/src/composite/mod.rs:302-407 | over every run of all instructions that touch an order, closing included, with time passing and any outside activity: custody is open exactly while the auction is active and then covers the stake; a missing auction account means nothing happened yet, or all did and the order expired |
| `Instructions.FirstOfferIff` | solana/programs/matching-engine/src/processor/auction/offer/place_initial/cctp.rs:29-207 | the first offer succeeds exactly when not paused, current, on the order's live path, before deadline and two hours from its envelope, within the maximum fee and covered; the deposit is maximum fee plus base plus floored share, cut at 64 bits |
| `Instructions.CustodyCoversStake` | solana/programs/matching-engine/src/processor/auction/offer/place_initial/cctp.rs:118-124 | over every run the custody of an active auction covers amount, maximum fee, base deposit and share |
| `Instructions.ImprovementIff` | solana/programs/matching-engine/src/processor/auction/offer/improve.rs:23-157 | an improvement succeeds exactly up to start plus duration, below the price less its floored delta, by a bidder who can stake; and every balance and record it leaves |
| `Instructions.ChargeByProtocol` | solana/programs/matching-engine/src/processor/auction/execute_fast_order/mod.rs:47-68 | what an execution charges at every slot, in plain sums, with five more slots of grace exactly for orders on the same chain |
| `Instructions.ExtraGraceIsForLocalOrders` | solana/programs/matching-engine/src/processor/auction/execute_fast_order/mod.rs:53-58 | at the plain penalty end another chain's order has cost the whole deposit, a local one only five slots later |
| `Instructions.ExecutionRecords` | solana/programs/matching-engine/src/processor/auction/execute_fast_order/mod.rs:70-225 | for every order: after the auction's last slot only, the recorded penalty, and the user's amount in plain sums |
| `Instructions.ReservationsIff` | solana/programs/matching-engine/src/processor/fast_fill/reserve_sequence/active_auction.rs:6-49 | when a sequence number can be reserved, with an auction and without, exactly |
| `Instructions.PreparationIff` | solana/programs/matching-engine/src/processor/auction/prepare_order_response/cctp.rs:131-262 | preparing opens the custody with the order's amount and records the preparer's account; repeating it changes nothing |
| `Instructions.FirstPreparerIsKept` | solana/programs/matching-engine/src/processor/auction/prepare_order_response/cctp.rs:141-144 | over every run the account recorded by the first preparer stays until settlement |
| `Instructions.SettlementIff` | solana/programs/matching-engine/src/processor/auction/settle/complete.rs:88-268 | for every order: when an execution can be settled, what either account gets, and the fee and total penalty recorded |
| `Instructions.SettlementNoneIff` | solana/programs/matching-engine/src/processor/auction/settle/none/mod.rs:31-112 | for every order: when it can be settled without auction, and everything that leaves |
| `Instructions.ClosingIff` | solana/programs/matching-engine/src/processor/auction/close.rs:9-48 | a settled auction can be closed exactly from two hours after its envelope on |
| `Instructions.SettledCanBeClosed` | solana/programs/matching-engine/src/processor/auction/close.rs:9-48 | once enough time has passed, closing succeeds |
| `Instructions.UserPaysAtMostHisMaxFee` | evm/src/TokenRouter/assets/PlaceMarketOrder.sol:182-215 | over every run of an order the router published, the user is sent at least the amount less the maximum fee he gave himself |
| `MarketOrders.RouterPublishesUserTerms` | evm/src/TokenRouter/assets/PlaceMarketOrder.sol:165-215 | for every call: when the source-chain router publishes, exactly, and that maximum and initiator fee of the order together are the maximum fee the user gave |
| `MarketOrders.RouterPublishesSoundOrders` | evm/src/TokenRouter/assets/PlaceMarketOrder.sol:165-219 | of the orders within its amount limits that name its fees, the source-chain router publishes exactly those with room for their fees and a base fee below the maximum fee |
| `LifecycleRuns.ExecutionSharesAreFair` | solana/programs/matching-engine/src/processor/auction/execute_fast_order/mod.rs:60-193 | for a sound order nothing clips: the four shares add up to custody and are the intended ones, with penalty and surplus going to another executor |
| `LifecycleRuns.ExecutionNeverStuck` | solana/programs/matching-engine/src/processor/auction/execute_fast_order/mod.rs:27-242 | a sound order past its auction can be executed by exactly the open accounts, whatever was closed or donated; by custody itself exactly when nothing would be left for it |
| `LifecycleRuns.ExecutableIff` | solana/programs/matching-engine/src/processor/auction/execute_fast_order/mod.rs:72-193 | for every order and every executor: it succeeds exactly when the fill is ready, price and fee fit into the amount or custody can pay every bidder with an open account anyway, and, for custody itself, nothing is left over |
| `LifecycleRuns.StuckIff` | solana/programs/matching-engine/src/processor/auction/execute_fast_order/mod.rs:72-193 | when no open account at all can execute, exactly: only custody is open and holds more than the user gets, or an unsound order's open initiator is owed more than custody holds, or more than 64 bits and more than others can pay |
| `Examples.OnlyBestOfferCanExecute` | solana/programs/matching-engine/src/processor/auction/execute_fast_order/mod.rs:72-193 | an unsound order in numbers: in time only the best offer can execute it |
| `Examples.FeeAboveCustodyIsStuck` | solana/programs/matching-engine/src/processor/auction/execute_fast_order/mod.rs:95-131 | an accepted order with an absurd initiator fee, which nobody can execute |
| `LifecycleRuns.PriceFallsGeometrically` | solana/programs/matching-engine/src/processor/auction/offer/improve.rs:23-129 | over every run of an active auction, n accepted improvements lower the price by n units and by the n-th power of the factor |
| `LifecycleRuns.ImprovementsAreBounded` | solana/programs/matching-engine/src/processor/auction/offer/improve.rs:23-129 | no run, closing included, accepts more improvements than the maximum fee has units |
| `Instructions.CountersFollowTheAuction` | solana/programs/matching-engine/src/processor/auction/offer/improve.rs:54-129 | improvements and auctions are counted exactly where the auction shows a lower price, or is active where there was none |
| `LifecycleRuns.AuctionedAndDeliveredOnce` | solana/programs/matching-engine/src/processor/auction/close.rs:18-24 | over every run, closing and the clock included, an order is auctioned at most once, and deliveries to the user are counted exactly: at most one |
| `LifecycleRuns.UserIsPaidOnce` | solana/programs/matching-engine/src/processor/auction/execute_fast_order/mod.rs:72-76 | over every run of a sound order what the user was paid never changes and is never less than the amount less the fees agreed to |
| `LifecycleRuns.SettledLeavesNothing` | solana/programs/matching-engine/src/processor/auction/settle/complete.rs:258-268 | after settlement, closed or not, neither program-owned token account is open and the user has been paid |
| `LifecycleRuns.SettlementAfterExecution` | solana/programs/matching-engine/src/processor/auction/settle/complete.rs:88-268 | an executed order can be settled exactly while someone entitled has an open account, and who gets what |
| `LifecycleRuns.SettlementWithoutAuction` | solana/programs/matching-engine/src/processor/auction/settle/none/mod.rs:31-112 | a prepared order without an auction can always be settled, a local one once its sequence number is reserved, and what user and protocol get |
| `FastTransfers.TransferEndToEnd` | solana/programs/matching-engine/src/processor/auction/execute_fast_order/mod.rs:27-242 | from first offer over improvement and an execution at any later slot, by anyone in any role, to settlement: exactly how the balances of initiator, best offer, executor and preparer move, that no other does, and what the user gets |
| `FastTransfers.FastTransferEndToEnd` | solana/programs/matching-engine/src/processor/auction/offer/improve.rs:54-157 | when the best offer executes in time, the initiator nets its fee, the best offer its price, the user the rest |
| `FastTransfers.ExecutionMoves` | solana/programs/matching-engine/src/processor/auction/execute_fast_order/mod.rs:72-193 | what one execution moves, on time or late, whoever executes |
| `FastTransfers.SettlementMoves` | solana/programs/matching-engine/src/processor/auction/settle/complete.rs:88-268 | what preparing and settling moves after an execution, penalised or not |
| `TokenConservation.PayExecutionConserves` | solana/programs/matching-engine/src/processor/auction/execute_fast_order/mod.rs:104-193 | whoever is paid and whichever accounts coincide, what leaves custody is what the accounts and the user receive |
| `TokenConservation.StepConserves` | solana/programs/matching-engine/src/processor/auction/execute_fast_order/mod.rs:27-242 | one instruction changes the funds of all accounts and the user together only by what arrives from outside |
| `TokenConservation.RunConserves` | solana/programs/matching-engine/src/processor/auction/settle/complete.rs:88-268 | over every run, closing included, all funds change by exactly what arrived: the slow transfer once, and outside activity |
| `Examples.ThousandDollarOrder` | solana/programs/matching-engine/src/processor/auction/offer/improve.rs:54-157 | one order in numbers: the end-to-end theorem's conditions can be met |
| `DecimalOrder.SameDigitsNumeric` | solver/src/executeOrder/app.ts:78 | decimal strings of equal length are ordered as their numbers are |
| `DecimalOrder.BeforeIff` | solver/src/executeOrder/app.ts:78 | two decimal strings are in numeric order exactly when the smaller number does not exceed the leading digits of the larger |
| `DecimalOrder.SortIsSorted` | solver/src/executeOrder/app.ts:78 | the comparator-less sort rearranges its input into decimal-string order |
| `SlotOrderedAuctions.SlotOrderedAuctions.constructor` | solver/src/executeOrder/app.ts:59-63 | a new calendar is empty |
| `SlotOrderedAuctions.SlotOrderedAuctions.AddAuction` | solver/src/executeOrder/app.ts:65-84 | lists the auction one slot after its end, records its details and keeps the containers consistent |
| `SlotOrderedAuctions.SlotOrderedAuctions.UpdateAuction` | solver/src/executeOrder/app.ts:86-93 | changes the execute flag of a pending auction only |
| `SlotOrderedAuctions.SlotOrderedAuctions.Dequeue` | solver/src/executeOrder/app.ts:99-114 | removes what `HeadSlot` returned, its list and its auctions and returns those to execute; throws on an empty calendar |
| `SlotOrderedAuctions.SlotOrderedAuctions.TakeDetails` | solver/src/executeOrder/app.ts:105-110 | looking up and deleting one by one returns each listed pending auction once |
| `SlotOrderedAuctions.Run` | solver/src/executeOrder/app.ts:54-115 | after every run the slot list is in decimal-string order without repetition, equals the keys of the lists, and every auction is listed under the slot in its details |
| `SlotOrderedAuctions.AddedIsConsistent` | solver/src/executeOrder/app.ts:65-84 | adding keeps the containers consistent, also for an auction already listed under another slot |
| `SlotOrderedAuctions.DequeuedIsConsistent` | solver/src/executeOrder/app.ts:99-114 | dequeuing keeps the containers consistent |
| `SlotOrderedAuctions.DequeuedMembers` | solver/src/executeOrder/app.ts:104-113 | exactly which auctions a dequeue returns, re-added ones included, and that they are no longer pending |
| `SlotOrderedAuctions.ReturnedAtMostOncePerAdd` | solver/src/executeOrder/app.ts:99-114 | over every run an auction is returned no more often than it was added |
| `SlotOrderedAuctions.ReturnedIff` | solver/src/executeOrder/app.ts:99-114 | an auction counts as returned exactly when some dequeue of the run returned it |
| `SlotOrderedAuctions.CalendarIsJournal` | solver/src/executeOrder/app.ts:65-114 | while no pending auction is added again, a dequeue returns exactly the head slot's auctions whose last-written flag is true, in insertion order |
| `SlotOrderedAuctions.ListsAreAdditions` | solver/src/executeOrder/app.ts:65-112 | over every run, re-additions included, a slot lists the auctions added under it since it was last dequeued, in order |
| `SlotOrderedAuctions.DetailsAreLastWritten` | solver/src/executeOrder/app.ts:65-111 | over every run the details kept are the last ones written since a slot listing the auction was dequeued |
| `SlotOrderedAuctions.DequeueReturns` | solver/src/executeOrder/app.ts:99-114 | over every run, re-additions included, a dequeue returns exactly the auctions listed under the head slot whose last-written flag is true, in the order of their first listing there |
| `SlotOrderedAuctions.SlotOrderedAuctions.HeadSlot` | solver/src/executeOrder/app.ts:95-97 | null exactly for an empty calendar, otherwise the pending slot that precedes all others in decimal-string order |
| `SlotOrderedAuctions.HeadSlotIsSmallestIff` | solver/src/executeOrder/app.ts:95-97 | the head slot is the smallest pending one exactly when the smallest does not exceed the leading digits of any other |
| `SlotOrderedAuctions.HeadSlotIsSmallest` | solver/src/executeOrder/app.ts:95-97 | the head slot is the smallest pending one while all have equally many digits |
| `SlotOrderedAuctions.HeadIsSmallestIff` | solver/src/executeOrder/app.ts:95-97 | the first slot of the list is the smallest exactly when the smallest does not exceed the leading digits of any other |
| `SlotOrderedAuctions.HeadIsSmallest` | solver/src/executeOrder/app.ts:95-97 | the first slot of the list is the smallest while all have equally many digits |
| `SlotOrderedAuctions.HeadNotSmallestAcrossDigits` | solver/src/executeOrder/app.ts:75-81 | a run of two additions after which slot 10 precedes slot 9 |
| `ArrayQueues.ArrayQueue.constructor` | solana/ts/src/utils.ts:19-21 | a new queue is empty, with 256 cells by default |
| `ArrayQueues.ArrayQueue.Head` | solana/ts/src/utils.ts:23-29 | the first element, or null when empty |
| `ArrayQueues.ArrayQueue.Length` | solana/ts/src/utils.ts:74-76 | the number of queued elements |
| `ArrayQueues.ArrayQueue.Enqueue` | solana/ts/src/utils.ts:31-42 | below capacity appends the value; on a full queue, or one without capacity, doubles the capacity and appends an undefined cell instead |
| `ArrayQueues.ArrayQueue.EnqueueIntended` | solana/ts/src/utils.ts:31-42 | intended behaviour: always appends the value |
| `ArrayQueues.ArrayQueue.Dequeue` | solana/ts/src/utils.ts:44-54 | drops the first element, does nothing when empty |
| `ArrayQueues.ArrayQueue.Resize` | solana/ts/src/utils.ts:56-68 | keeps the contents in order from index zero, in an array of twice their number |
| `ArrayQueues.ArrayQueue.Perform` | solana/ts/src/utils.ts:31-54 | every schedule, through any number of wrap-arounds and resizes, does to contents and capacity what its operations do one by one |
| `ArrayQueues.FifoIffFits` | solana/ts/src/utils.ts:31-54 | the queue agrees with the plain sequence all through a schedule exactly when no enqueue finds it full, and then never grows |
| `ArrayQueues.OnlyValuesAreLost` | solana/ts/src/utils.ts:31-54 | over every schedule, order and number of elements are those of the plain sequence; a value is right or undefined |
| `ArrayQueues.SecondOfTwoIsLost` | solana/ts/src/utils.ts:36-40 | a queue of one cell given two values holds the first and an undefined cell |
| `ArrayQueues.AppendLands` | solana/ts/src/utils.ts:40 | the cell written is free and its value comes last |
| `VaaSpies.VaaSpy.constructor` | solana/ts/src/wormhole/spy.ts:34-44 | cleanup left unset counts as enabled but is not started; two seconds and 69420 entries by default |
| `VaaSpies.VaaSpy.ProcessUniqueVaa` | solana/ts/src/wormhole/spy.ts:77-88 | delivers exactly the messages whose hash is not remembered, and remembers them; delivers everything with cleanup disabled; throws exactly when cleanup is enabled but not started |
| `VaaSpies.VaaSpy.HasSeen` | solana/ts/src/wormhole/spy.ts:80 | membership in the insertion-ordered map |
| `VaaSpies.VaaSpy.Tick` | solana/ts/src/wormhole/spy.ts:99-112 | the deleting walk drops the first stale entries up to the budget |
| `VaaSpies.VaaSpy.Watch` | solana/ts/src/wormhole/spy.ts:77-112 | a run of calls and ticks delivers and remembers what the run functions say |
| `VaaSpies.CleanedDropsStalePrefix` | solana/ts/src/wormhole/spy.ts:99-112 | on entries in time order a pass drops a prefix within the budget, all stale, and fewer than the budget only when nothing stale is left |
| `VaaSpies.RunIsTimeOrdered` | solana/ts/src/wormhole/spy.ts:77-112 | over every run of a non-decreasing clock, insertion order is time order |
| `VaaSpies.RunIsDistinct` | solana/ts/src/wormhole/spy.ts:79-84 | no hash is remembered twice, whatever the clock does |
| `VaaSpies.RememberedUntilStale` | solana/ts/src/wormhole/spy.ts:77-112 | a delivered hash stays remembered until more than the threshold has passed |
| `VaaSpies.DeliveriesAreFarApart` | solana/ts/src/wormhole/spy.ts:77-113 | any two deliveries of one hash are strictly more than the threshold apart, over every interleaving |
| `VaaSpies.HeldBackOnlyAfterDelivery` | solana/ts/src/wormhole/spy.ts:77-113 | over every interleaving, an observation is held back only after one of the same hash was delivered |
| `CctpMessages.EncodeCctp` | solana/ts/src/cctp/messages.ts:139-157 | the running-offset writes, for addresses of any length: each overwrites from its place on, and throws when it does not fit |
| `CctpMessages.EncodedCctpDefined` | solana/ts/src/cctp/messages.ts:139-157 | encoding a header throws exactly for addresses over 96, 64 and 32 bytes |
| `CctpMessages.EncodedCctpIsHeader` | solana/ts/src/cctp/messages.ts:139-157 | with 32-byte addresses the 116 bytes are the fields in order |
| `CctpMessages.HeaderPositions` | solana/ts/src/cctp/messages.ts:139-157 | at which bytes each field of the header lies |
| `CctpMessages.EncodeMessage` | solana/ts/src/cctp/messages.ts:55-58 | header followed by the message, or throws with the header |
| `CctpMessages.EncodeTokenBurn` | solana/ts/src/cctp/messages.ts:113-136 | the running-offset writes of the body behind the header, for fields of any length |
| `CctpMessages.EncodedBodyDefined` | solana/ts/src/cctp/messages.ts:113-136 | encoding a body throws exactly for amounts of 2^256 on and for addresses that reach past its end |
| `CctpMessages.EncodedBodyIsBurn` | solana/ts/src/cctp/messages.ts:113-136 | with 32-byte addresses the 132 bytes are the fields in order |
| `CctpMessages.BodyPositions` | solana/ts/src/cctp/messages.ts:113-136 | at which bytes of the message each field of the body lies |
| `CctpMessages.AmountLengthIff` | solana/ts/src/cctp/messages.ts:129 | an amount needs at most k bytes exactly below the k-th power of 256 |
| `CctpMessages.DecodeMessageDefined` | solana/ts/src/cctp/messages.ts:31-35 | decoding a message throws exactly below 20 bytes |
| `CctpMessages.DecodeEncodeMessage` | solana/ts/src/cctp/messages.ts:31-58 | decoding an encoded message returns it |
| `CctpMessages.EncodeDecodeMessage` | solana/ts/src/cctp/messages.ts:31-58 | every buffer with a full header is the encoding of what it decodes to |
| `CctpMessages.DecodeEncodeTokenBurn` | solana/ts/src/cctp/messages.ts:93-136 | decoding an encoded burn message returns it, for amounts below 2^256 |
| `CctpMessages.DecodeTokenBurnDefined` | solana/ts/src/cctp/messages.ts:93-111 | decoding throws exactly below 120 bytes |
| `CctpMessages.EncodeDecodeTokenBurn` | solana/ts/src/cctp/messages.ts:93-136 | re-encoding what was decoded gives the first 248 bytes back |
| `CctpMessages.DecodeEncodeMessageIff` | solana/ts/src/cctp/messages.ts:31-58 | whatever can be encoded is decoded to itself exactly when its addresses have 32 bytes |
| `CctpMessages.DecodeEncodeTokenBurnIff` | solana/ts/src/cctp/messages.ts:93-136 | the same for burn messages |
| `CctpMessages.AmountIsRightAligned` | solana/ts/src/cctp/messages.ts:125-130 | the amount is big-endian, zero-padded on the left of its 32 bytes |
| `RawDeposit.ReencodeParsed` | universal/rs/messages/src/raw/deposit.rs:64-145 | the accessor values of an accepted span, written again, are that span |
| `RawDeposit.FillPositions` | universal/rs/messages/src/deposit/fill.rs:28-43 | at which bytes each field of a fill is written |
| `RawDeposit.ParseWrittenFill` | universal/rs/messages/src/deposit/fill.rs:28-43 | every written fill is accepted and read back field by field |
| `RawDeposit.ParseWrittenResponse` | universal/rs/messages/src/deposit/slow_order_response.rs:22-32 | every written slow order response is accepted and read back |
| `RawDeposit.ParserIsCanonical` | universal/rs/messages/src/raw/deposit.rs:64-145 | a span is accepted exactly when it is a type byte and the writer's encoding of some value |
| `AuctionHistories.FetchAuctionHistory` | solana/ts/src/matchingEngine/index.ts:575-651 | the cursor loop returns what the fixed-stride reading of the bytes says, and throws exactly when that is undefined |
| `AuctionHistories.FetchHeader` | solana/ts/src/matchingEngine/index.ts:583-590 | id, timestamps and count from fixed positions, the cursor ending at byte 30 |
| `AuctionHistories.FetchEntry` | solana/ts/src/matchingEngine/index.ts:595-643 | one record, the cursor moved by exactly 150 bytes |
| `AuctionHistories.HistoryRoundTrip` | solana/ts/src/matchingEngine/index.ts:564-651 | every history with both timestamps and no asset info is recovered, whatever follows it |
| `AuctionHistories.RecordPositions` | solana/programs/matching-engine/src/state/auction.rs:45-95 | at which bytes each field of a record is serialised, asset info included |
| `AuctionHistories.HistoryPositions` | solana/programs/matching-engine/src/state/auction_history.rs:13-35 | at which bytes header and records of a history lie |
| `AuctionHistories.ReaderIsExact` | solana/ts/src/matchingEngine/index.ts:575-651 | for all bytes: the reader returns exactly the history whose values lie at its fixed places |
| `AuctionHistories.FreshAccountRoundTrip` | solana/programs/matching-engine/src/state/auction_history.rs:34-57 | a new account, without timestamps and entries, is read back |
| `AuctionHistories.ImageWithoutEntries` | solana/programs/matching-engine/src/state/auction_history.rs:52-57 | an account without entries is read back exactly unless only the later timestamp is set |
| `AuctionHistories.ImageRecoveredIff` | solana/ts/src/matchingEngine/index.ts:584-590 | which accounts of at least header size, zero-padded, are read back, exactly: all with both timestamps; without the later one those whose bytes repeat after the missing ones |
| `AuctionHistories.TimedRecoveredIff` | solana/ts/src/matchingEngine/index.ts:577-650 | with both timestamps and any asset info, an account is read back exactly when every record lies at its fixed place |
| `AuctionHistories.AssetInfoRecoveredIff` | solana/ts/src/matchingEngine/index.ts:618-624 | asset info on the last entry, which no instruction writes, would be recovered exactly when all bytes of the amount equal the bump, whatever follows |
| `AuctionHistories.EncodedLength` | solana/programs/matching-engine/src/state/auction_history.rs:27-32 | a record without asset info takes 150 bytes |
| `PostVaa.UnsafeFixSigVerifyIx` | solver/src/utils/preparePostVaaTx.ts:8-19 | sets exactly the patched positions within the buffer, and succeeds exactly when all of them are |
| `PostVaa.PatchRecord` | solver/src/utils/preparePostVaaTx.ts:14-18 | one round of the loop writes three positions, as far as they are in range |
| `PostVaa.PositionsAreDistinct` | solver/src/utils/preparePostVaaTx.ts:13-18 | n signatures give 3n distinct positions |
| `PostVaa.PreparePostVaaTxs` | solver/src/utils/preparePostVaaTx.ts:39-78 | the reversed, popped list yields the pairs from the front and patches just the buffers of the first instruction of each pair, shared buffers included; fails exactly when one of those cannot be patched, having stopped there |
| `PostVaa.PatchIsIdempotent` | solver/src/utils/preparePostVaaTx.ts:8-19 | patching a buffer again changes nothing, so instructions may share one |
| `PostVaa.PatchPointsRecords` | solver/src/utils/preparePostVaaTx.ts:8-19 | on a well-formed instruction of any number of signatures the patch sets the three instruction indices of every offset record and nothing else |
| `PostVaa.AfterPatchPointsToThird` | solver/src/utils/preparePostVaaTx.ts:52-54 | the index set is 2, and well-formed instructions can always be patched |
| `PostVaa.PatchFitsIff` | solver/src/utils/preparePostVaaTx.ts:13-18 | the patch succeeds exactly when all its positions are in range |
| `PostVaa.PairsKeepOrder` | solver/src/utils/preparePostVaaTx.ts:50-76 | the verify transactions together hold the original list in order, with a missing instruction exactly for odd lengths |
| `PostVaa.PairsAlternate` | solver/src/utils/preparePostVaaTx.ts:57-75 | every verify transaction is followed by one post transaction, and nothing else is sent |

## Left out

- Account derivation, signer seeds, token approvals: who may call an instruction is modelled only as far as accounts being open, distinct or owned by the program.
- The check that an auction's configuration is the current one is one flag of `Setting`; events and the rent of accounts do not touch token balances.
- MatchingEngineHandlers.MatchingEngine.HandleExecuteFastOrder: the target's endpoint is taken to be live still, with the protocol it had when the auction started; so in `ExecutionNeverStuck`, `ExecutableIff` and `StuckIff`. The theorems about all runs do not depend on it: a step that fails for it changes nothing.
- MatchingEngineHandlers.MatchingEngine.HandlePrepareOrderResponse: the endpoints are taken to be those of the order still, here and when a sequence number is reserved.
- Overflow of a token balance: the supply of the token fits into 64 bits, so balances are natural numbers.
- A burn of zero tokens, which the CCTP program refuses: for a sound order the user's amount is positive, as `ExecutionSharesAreFair` states.
- Auction history accounts on chain, configuration changes and upgrades; completing and closing fast fills, which are accounts of their own: none of them touches the accounts of an order.
- ArrayQueues.ArrayQueue.EnqueueIntended: is not the repository's code, and is stated for queues with at least one cell.
- CctpMessages.EncodeTokenBurn: amounts are not negative; the big-number library is not part of this model.
- VaaSpies.VaaSpy.Tick: the timer that calls it is a step of the run.
- AuctionHistories.AssetInfoRecoveredIff: asset info on an entry that others follow shifts all later records by nine bytes; `TimedRecoveredIff` covers it record by record.
- The router's checks of target chain, redeemer and message size, which concern no fee.
- Wormhole messages around the deposit payload, fast market orders and fast fills: thin layouts of the same kind as the deposit messages.
- Fetching, websockets, transaction sending, logging, configuration parsing: no property beyond plumbing.
