/** One order from its first offer to its settlement, as a run of the program: who ends up with
    what, whoever executes it and whenever. */
module FastTransfers {
  import opened AuctionLifecycle
  import opened AuctionState
  import opened DepositPenalties
  import opened LifecycleRuns
  import opened MachineInts
  import opened MarketOrders
  import opened OfferPrices
  import opened Wrappers

  /** The second bidder's stake replaces the first's, who is made whole. */
  lemma PlaceThenImprove(
    m: Market, start: World, a: Pubkey, b: Pubkey,
    firstPrice: u64, price: u64, at: Setting, improveSlot: u64) returns (improved: World)
    requires Inv(m, start) && AuctionCanStart(m, start.clock, at) && start.auction.None? && start.response.Unprepared?
    requires a in start.tokens && b in start.tokens && a != b
    requires var stake := m.order.amountIn + SecurityDeposit(m);
      stake <= U64_MAX && stake <= start.tokens[a] && stake <= start.tokens[b]
    requires var info := AuctionInfo(a, a, at.slot, m.order.amountIn, SecurityDeposit(m), firstPrice);
      && firstPrice <= m.order.maxFee && ImprovementAllowed(m.params, info, price)
      && improveSlot <= info.AuctionEndSlot(m.params)
    ensures improved == Step(m, Step(m, start, Place(a, firstPrice, at)), Improve(b, price, improveSlot))
    ensures
      var stake := m.order.amountIn + SecurityDeposit(m);
      var info := AuctionInfo(b, a, at.slot, m.order.amountIn, SecurityDeposit(m), price);
      && Inv(m, improved)
      && improved == World(start.tokens[b := start.tokens[b] - stake][m.custody := stake],
                           Some(Auction(Active, Some(info))), Unprepared, None, false, start.clock)
  {
    var placed := Step(m, start, Place(a, firstPrice, at));
    StepKeepsInv(m, start, Place(a, firstPrice, at));
    improved := Step(m, placed, Improve(b, price, improveSlot));
    StepKeepsInv(m, placed, Improve(b, price, improveSlot));
    var stake := m.order.amountIn + SecurityDeposit(m);
    assert placed.tokens == start.tokens[a := start.tokens[a] - stake][m.custody := stake];
    assert Info(placed).TotalDeposit() == stake;
    assert improved.tokens == Credit(placed.tokens[b := placed.tokens[b] - stake], a, stake);
  }

  /** Whose accounts are involved; one may play several roles. */
  datatype Parties = Parties(initiator: Pubkey, bestOffer: Pubkey, executor: Pubkey, preparer: Pubkey)

  /** By how much the balance of each of them moves in his role. */
  datatype Changes = Changes(initiator: int, bestOffer: int, executor: int, preparer: int)

  ghost function ChangeOf(key: Pubkey, p: Parties, c: Changes): int {
    (if key == p.initiator then c.initiator else 0) + (if key == p.bestOffer then c.bestOffer else 0)
    + (if key == p.executor then c.executor else 0) + (if key == p.preparer then c.preparer else 0)
  }

  /** The same accounts are open, and each balance has moved by the changes of its roles. */
  ghost predicate Moved(before: Tokens, after: Tokens, p: Parties, c: Changes) {
    && after.Keys == before.Keys
    && forall key :: key in before ==> after[key] == before[key] + ChangeOf(key, p, c)
  }

  ghost predicate Involves(info: AuctionInfo, p: Parties) {
    info.initialOfferToken == p.initiator && info.bestOfferToken == p.bestOffer && p.initiator != p.bestOffer
  }

  /** An execution returns the best offer's stake with his price, less the user's reward and,
      if someone else executes, the penalty, which goes there. */
  lemma ExecutionMoves(m: Market, w: World, p: Parties, slot: u64)
    requires Inv(m, w) && IsActive(w) && Sound(m.order, m.baseFee) && FillIsReady(m, w)
    requires Involves(Info(w), p) && !Info(w).WithinAuctionDuration(m.params, slot)
    requires p.initiator in w.tokens && p.bestOffer in w.tokens && p.executor in w.tokens && p.executor != m.custody
    requires w.tokens[m.custody] == Info(w).TotalDeposit()
    ensures
      var info, out, executed := Info(w), PenaltyAt(m, Info(w), slot), Step(m, w, Execute(p.executor, slot));
      var toExecutor := if p.executor != p.bestOffer then out.penalty else 0;
      var toBestOffer := info.offerPrice + info.securityDeposit - out.userReward - toExecutor;
      && executed.delivered == Some(info.amountIn - info.offerPrice - m.order.initAuctionFee + out.userReward)
      && executed.response == w.response
      && executed.auction == Some(Auction(
           Completed(slot, if out.penalty > 0 then Some(out.penalty) else None), Some(info)))
      && Moved(w.tokens - {m.custody}, executed.tokens, p,
               Changes(m.order.initAuctionFee, toBestOffer, toExecutor, 0))
  {
    hide ComputeDepositPenalty, SecurityDeposit;
    ExecutionSharesAreFair(m, w, p.executor, slot);
  }

  /** The repayment goes to the best offer, less the base fee after a penalised execution. */
  lemma SettlementMoves(m: Market, w: World, p: Parties)
    requires Inv(m, w) && Sound(m.order, m.baseFee) && w.response.Unprepared?
    requires p.bestOffer in w.tokens && p.preparer in w.tokens
    requires w.auction.Some? && w.auction.value.info.Some? && w.auction.value.status.Completed?
    requires w.auction.value.info.value.bestOfferToken == p.bestOffer
    ensures
      var penalty := w.auction.value.status.executePenalty;
      var settled := Step(m, Step(m, w, Prepare(p.preparer)), SettleComplete);
      var toPreparer := if penalty.Some? && p.preparer != p.bestOffer then m.baseFee else 0;
      && settled.delivered == w.delivered
      && Moved(w.tokens, settled.tokens, p, Changes(0, m.order.amountIn - toPreparer, 0, toPreparer))
  {
    hide SecurityDeposit;
  }

  lemma StakeMoves(m: Market, start: World, improved: World, p: Parties, stake: int)
    requires m.custody !in start.tokens && p.bestOffer in start.tokens && 0 <= stake <= start.tokens[p.bestOffer]
    requires improved.tokens == start.tokens[p.bestOffer := start.tokens[p.bestOffer] - stake][m.custody := stake]
    ensures Moved(start.tokens, improved.tokens - {m.custody}, p, Changes(0, -stake, 0, 0))
  {
  }

  /** Past its auction a local order gets its sequence number; other orders need none. */
  lemma ReadyToExecute(m: Market, w: World, slot: u64)
    requires Inv(m, w) && IsActive(w) && !Info(w).WithinAuctionDuration(m.params, slot)
    ensures var ready := Step(m, w, ReserveForAuction(slot));
      FillIsReady(m, ready) && ready == w.(sequenceReserved := ready.sequenceReserved) && Inv(m, ready)
  {
    hide SecurityDeposit;
    StepKeepsInv(m, w, ReserveForAuction(slot));
  }

  /** Changes of the same parties add up. */
  lemma MovedTwice(before: Tokens, between: Tokens, after: Tokens, p: Parties, c: Changes, d: Changes)
    requires Moved(before, between, p, c) && Moved(between, after, p, d)
    ensures between.Keys == after.Keys == before.Keys
    ensures Moved(before, after, p, Changes(
      c.initiator + d.initiator, c.bestOffer + d.bestOffer, c.executor + d.executor, c.preparer + d.preparer))
  {
  }

  lemma RunOfSix(m: Market, w: World, actions: seq<Action>)
    requires |actions| == 6
    ensures
      var w2 := Step(m, Step(m, w, actions[0]), actions[1]);
      var w4 := Step(m, Step(m, w2, actions[2]), actions[3]);
      Run(m, w, actions) == Step(m, Step(m, w4, actions[4]), actions[5])
  {
    hide Step;
    assert actions[..1] == [actions[0]] && actions[..1][..0] == [];
    assert actions[..5][..4] == actions[..4] && actions[..4][..3] == actions[..3];
    assert actions[..3][..2] == actions[..2] && actions[..2][..1] == actions[..1];
    assert Run(m, w, actions[..1]) == Step(m, w, actions[0]);
    assert Run(m, w, actions[..2]) == Step(m, Run(m, w, actions[..1]), actions[1]);
    assert Run(m, w, actions[..3]) == Step(m, Run(m, w, actions[..2]), actions[2]);
    assert Run(m, w, actions[..4]) == Step(m, Run(m, w, actions[..3]), actions[3]);
    assert Run(m, w, actions[..5]) == Step(m, Run(m, w, actions[..4]), actions[4]);
  }

  /** The initiator opens the auction, the best offer improves it, the executor executes at any
      slot after it, the preparer prepares the slow transfer and it is settled. For a transfer on
      the same chain the sequence number is reserved in between; otherwise that step fails and
      changes nothing. */
  ghost function Story(
    p: Parties, firstPrice: u64, price: u64, at: Setting, improveSlot: u64, executeSlot: u64): seq<Action>
  {
    [Place(p.initiator, firstPrice, at), Improve(p.bestOffer, price, improveSlot), ReserveForAuction(executeSlot),
     Execute(p.executor, executeSlot), Prepare(p.preparer), SettleComplete]
  }

  /** Where the story can begin, and at which prices and slots it can be told. */
  ghost predicate CanBeTold(
    m: Market, start: World, p: Parties, firstPrice: u64, price: u64, at: Setting, improveSlot: u64, executeSlot: u64)
  {
    var stake := m.order.amountIn + SecurityDeposit(m);
    && Inv(m, start) && AuctionCanStart(m, start.clock, at) && Sound(m.order, m.baseFee)
    && start.auction.None? && start.response.Unprepared?
    && p.initiator in start.tokens && p.bestOffer in start.tokens && p.initiator != p.bestOffer
    && p.executor in start.tokens && p.preparer in start.tokens
    && stake <= U64_MAX && stake <= start.tokens[p.initiator] && stake <= start.tokens[p.bestOffer]
    && var info := AuctionInfo(p.initiator, p.initiator, at.slot, m.order.amountIn, SecurityDeposit(m), firstPrice);
       && firstPrice <= m.order.maxFee && ImprovementAllowed(m.params, info, price)
       && improveSlot <= info.AuctionEndSlot(m.params) < executeSlot
  }

  /** The whole story, on time or late, whoever executes and prepares, in any of the roles: the
      initiator is left with his fee, the best offer with his price less reward, penalty and base
      fee, the executor with the penalty and the preparer with the base fee of a late execution,
      the user with the rest and the reward, and nobody else's balance has moved. */
  lemma TransferEndToEnd(
    m: Market, start: World, p: Parties, firstPrice: u64, price: u64, at: Setting, improveSlot: u64, executeSlot: u64)
    requires CanBeTold(m, start, p, firstPrice, price, at, improveSlot, executeSlot)
    ensures
      var info := AuctionInfo(p.bestOffer, p.initiator, at.slot, m.order.amountIn, SecurityDeposit(m), price);
      var out, fee := PenaltyAt(m, info, executeSlot), m.order.initAuctionFee;
      var toExecutor := if p.executor != p.bestOffer then out.penalty else 0;
      var toPreparer := if out.penalty > 0 && p.preparer != p.bestOffer then m.baseFee else 0;
      var end := Run(m, start, Story(p, firstPrice, price, at, improveSlot, executeSlot));
      && end.delivered == Some(m.order.amountIn - price - fee + out.userReward)
      && Moved(start.tokens, end.tokens, p,
               Changes(fee, price - out.userReward - toExecutor - toPreparer, toExecutor, toPreparer))
  {
    hide SecurityDeposit, ImprovementAllowed, ComputeDepositPenalty, Run, Step, Moved;
    var improved := PlaceThenImprove(m, start, p.initiator, p.bestOffer, firstPrice, price, at, improveSlot);
    var ready := Step(m, improved, ReserveForAuction(executeSlot));
    ReadyToExecute(m, improved, executeSlot);
    StakeMoves(m, start, improved, p, m.order.amountIn + SecurityDeposit(m));
    ExecutionMoves(m, ready, p, executeSlot);
    var executed := Step(m, ready, Execute(p.executor, executeSlot));
    StepKeepsInv(m, ready, Execute(p.executor, executeSlot));
    var staked := ready.tokens - {m.custody};
    var out, fee := PenaltyAt(m, Info(ready), executeSlot), m.order.initAuctionFee;
    var toExecutor := if p.executor != p.bestOffer then out.penalty else 0;
    var stake: int, owed: int :=
      Info(ready).TotalDeposit(), price + SecurityDeposit(m) - out.userReward - toExecutor;
    MovedTwice(start.tokens, staked, executed.tokens, p, Changes(0, -stake, 0, 0), Changes(fee, owed, toExecutor, 0));
    SettlementMoves(m, executed, p);
    var settled := Step(m, Step(m, executed, Prepare(p.preparer)), SettleComplete);
    var toPreparer := if out.penalty > 0 && p.preparer != p.bestOffer then m.baseFee else 0;
    MovedTwice(start.tokens, executed.tokens, settled.tokens, p,
               Changes(fee, owed - stake, toExecutor, 0), Changes(0, m.order.amountIn - toPreparer, 0, toPreparer));
    RunOfSix(m, start, Story(p, firstPrice, price, at, improveSlot, executeSlot));
  }

  /** On time, the best offer executes and collects everything: the initiator is left with his
      fee, the best offer with his price. */
  lemma FastTransferEndToEnd(
    m: Market, start: World, a: Pubkey, b: Pubkey,
    firstPrice: u64, price: u64, at: Setting, improveSlot: u64, executeSlot: u64)
    requires CanBeTold(m, start, Parties(a, b, b, b), firstPrice, price, at, improveSlot, executeSlot)
    requires var info := AuctionInfo(b, a, at.slot, m.order.amountIn, SecurityDeposit(m), price);
      executeSlot <= info.GracePeriodEndSlot(m.params, AdditionalGracePeriod(m))
    ensures
      var end := Run(m, start, Story(Parties(a, b, b, b), firstPrice, price, at, improveSlot, executeSlot));
      && end.delivered == Some(m.order.amountIn - price - m.order.initAuctionFee)
      && end.tokens == start.tokens[a := start.tokens[a] + m.order.initAuctionFee][b := start.tokens[b] + price]
  {
    hide SecurityDeposit, ImprovementAllowed, ComputeDepositPenalty, Run;
    var info := AuctionInfo(b, a, at.slot, m.order.amountIn, SecurityDeposit(m), price);
    PenaltyEndpoints(m.params, info, executeSlot, AdditionalGracePeriod(m));
    TransferEndToEnd(m, start, Parties(a, b, b, b), firstPrice, price, at, improveSlot, executeSlot);
  }
}
