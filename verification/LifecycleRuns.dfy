/** What holds over every run of the matching engine: any interleaving of all instructions that
    touch an order, by anyone, failed ones included, with time that passes and any activity on
    token accounts the program does not own. */
module LifecycleRuns {
  import opened AuctionLifecycle
  import opened AuctionState
  import opened DepositPenalties
  import opened MachineInts
  import opened MarketOrders
  import opened OfferPrices
  import opened Wrappers

  datatype Action =
    | Place(offerToken: Pubkey, offerPrice: u64, at: Setting)
    | Improve(offerToken: Pubkey, offerPrice: u64, slot: u64)
    | Execute(executor: Pubkey, slot: u64)
    | Prepare(baseFeeToken: Pubkey)
    | SettleComplete
    | SettleNone(feeRecipient: Pubkey)
    | ReserveForAuction(slot: u64)
    | ReserveWithoutAuction
    | Close
    | Pass(time: int)
    | Elsewhere(tokens: Tokens)

  /** Outside activity can open, close, fill or drain any account except the program's own
      two, which it can only add to. */
  ghost predicate OutsideActivity(m: Market, before: Tokens, after: Tokens) {
    forall key | ProgramOwned(m, key) ::
      (key in after <==> key in before) && (key in before ==> before[key] <= after[key])
  }

  ghost function Outcome(m: Market, w: World, a: Action): Option<World> {
    match a
    case Place(offerToken, offerPrice, at) => PlaceInitialOffer(m, w, offerToken, offerPrice, at)
    case Improve(offerToken, offerPrice, slot) => ImproveOffer(m, w, offerToken, offerPrice, slot)
    case Execute(executor, slot) => ExecuteFastOrder(m, w, executor, slot)
    case Prepare(baseFeeToken) => PrepareOrderResponse(m, w, baseFeeToken)
    case SettleComplete => SettleAuctionComplete(m, w)
    case SettleNone(feeRecipient) => SettleAuctionNone(m, w, feeRecipient)
    case ReserveForAuction(slot) => AuctionLifecycle.ReserveForAuction(m, w, slot)
    case ReserveWithoutAuction => AuctionLifecycle.ReserveWithoutAuction(m, w)
    case Close => CloseAuction(m, w)
    case Pass(time) => if w.clock <= time then Some(w.(clock := time)) else None
    case Elsewhere(tokens) => if OutsideActivity(m, w.tokens, tokens) then Some(w.(tokens := tokens)) else None
  }

  ghost function Step(m: Market, w: World, a: Action): World {
    var outcome := Outcome(m, w, a);
    if outcome.Some? then outcome.value else w
  }

  ghost function Run(m: Market, w: World, actions: seq<Action>): World {
    if actions == [] then w
    else
      var last := |actions| - 1;
      Step(m, Run(m, w, actions[..last]), actions[last])
  }

  lemma StepKeepsInv(m: Market, w: World, a: Action)
    requires Inv(m, w)
    ensures Inv(m, Step(m, w, a))
  {
    if Outcome(m, w, a).Some? {
      match a
      case Place(offerToken, offerPrice, at) => PlaceKeepsInv(m, w, offerToken, offerPrice, at);
      case Improve(offerToken, offerPrice, slot) => ImproveKeepsInv(m, w, offerToken, offerPrice, slot);
      case Execute(executor, slot) => ExecuteKeepsInv(m, w, executor, slot);
      case Prepare(baseFeeToken) => PrepareKeepsInv(m, w, baseFeeToken);
      case SettleComplete => SettleKeepsInv(m, w);
      case SettleNone(feeRecipient) => SettleNoneKeepsInv(m, w, feeRecipient);
      case ReserveForAuction(slot) => ReserveForAuctionKeepsInv(m, w, slot);
      case ReserveWithoutAuction => ReserveWithoutAuctionKeepsInv(m, w);
      case Close => CloseKeepsInv(m, w);
      case Pass(_) =>
      case Elsewhere(tokens) => assert ProgramOwned(m, m.custody) && ProgramOwned(m, m.preparedCustody);
    }
  }

  lemma {:induction false} RunKeepsInv(m: Market, w: World, actions: seq<Action>)
    requires Inv(m, w)
    ensures Inv(m, Run(m, w, actions))
  {
    if actions != [] {
      var last := |actions| - 1;
      RunKeepsInv(m, w, actions[..last]);
      StepKeepsInv(m, Run(m, w, actions[..last]), actions[last]);
    }
  }

  // ------------------------------------------------------------------------ one execution

  /** For a sound order the shares are the intended ones and add up to custody: the user
      pays price and initiator fee and is rewarded for lateness, the stake goes back less
      the penalty, which only another executor collects. */
  lemma ExecutionSharesAreFair(m: Market, w: World, executor: Pubkey, slot: u64)
    requires Inv(m, w) && IsActive(w) && Sound(m.order, m.baseFee)
    ensures var info, out := Info(w), PenaltyAt(m, Info(w), slot);
      && OwedToBestOffer(m, info, w.tokens, executor, out).Some?
      && var s := ExecutionShares(m, info, w.tokens, executor, out);
         var fee := m.order.initAuctionFee;
         var surplus := w.tokens[m.custody] - info.TotalDeposit();
         var initiatorOpen, bestOpen := info.initialOfferToken in w.tokens, info.bestOfferToken in w.tokens;
         var owed := info.offerPrice + info.securityDeposit - out.userReward;
         && 0 <= surplus
         && s.user + s.initiator + s.bestOffer + s.executor == w.tokens[m.custody]
         && s.user == info.amountIn - info.offerPrice - fee + out.userReward && 0 < s.user
         && out.penalty + out.userReward <= info.securityDeposit
         && (initiatorOpen && info.initialOfferToken != info.bestOfferToken ==> s.initiator == fee)
         && (executor != info.bestOfferToken && bestOpen && initiatorOpen ==>
               && s.bestOffer + s.initiator == owed - out.penalty + fee
               && s.executor == out.penalty + surplus)
         && (executor != info.bestOfferToken && bestOpen && !initiatorOpen ==>
               s.bestOffer == owed - out.penalty && s.executor == out.penalty + surplus + fee)
         && (executor == info.bestOfferToken || !bestOpen ==>
               s.bestOffer == 0 && s.executor + s.initiator == owed + surplus + fee)
         && 0 <= s.executor
  {
    PenaltyIsExactSplit(m.params, Info(w), slot, AdditionalGracePeriod(m));
  }

  /** A sound order past its auction can always be executed, whatever accounts have been
      closed and whatever was sent to custody: by any open account; by custody itself only
      when nothing would be left for it. A local order needs its sequence number first, which
      `ReserveForAuction` provides at that same slot. */
  lemma ExecutionNeverStuck(m: Market, w: World, executor: Pubkey, slot: u64)
    requires Inv(m, w) && IsActive(w) && Sound(m.order, m.baseFee)
    ensures var info, out := Info(w), PenaltyAt(m, Info(w), slot);
      ExecuteFastOrder(m, w, executor, slot).Some?
      <==>
      && executor in w.tokens && !info.WithinAuctionDuration(m.params, slot) && FillIsReady(m, w)
      && (executor == m.custody ==>
            && OwedToBestOffer(m, info, w.tokens, executor, out).Some?
            && ExecutionShares(m, info, w.tokens, executor, out).executor == 0)
  {
    ExecutionSharesAreFair(m, w, executor, slot);
  }

  // --------------------------------------------------------------- orders that are not sound

  /** Price and deposit, which the program adds with saturation. */
  ghost function Backing(info: AuctionInfo): u64 {
    SatAdd64(info.offerPrice, info.securityDeposit)
  }

  /** What custody must hold so that everyone with an open account can be paid. A third party
      pays both bidders. When the best offer executes, or its account is closed, only the
      initiator's fee comes first; an initiator who executes has it added to his refund. */
  ghost predicate CanPayBidders(m: Market, w: World, executor: Pubkey, slot: u64)
    requires Inv(m, w) && IsActive(w)
  {
    var info, out, fee := Info(w), PenaltyAt(m, Info(w), slot), m.order.initAuctionFee;
    var initiatorOpen := info.initialOfferToken in w.tokens;
    if executor != info.bestOfferToken && info.bestOfferToken in w.tokens then
      Backing(info) + (if initiatorOpen then fee else 0) <= w.tokens[m.custody] + out.penalty
    else if !initiatorOpen then true
    else if info.initialOfferToken == info.bestOfferToken then Backing(info) - out.userReward + fee <= U64_MAX
    else out.userReward + fee <= w.tokens[m.custody]
  }

  /** Nothing would be left for the executor, so that custody itself can be named as one. */
  ghost predicate NothingLeft(m: Market, w: World, executor: Pubkey, slot: u64)
    requires Inv(m, w) && IsActive(w)
  {
    var info, out := Info(w), PenaltyAt(m, Info(w), slot);
    && OwedToBestOffer(m, info, w.tokens, executor, out).Some?
    && ExecutionShares(m, info, w.tokens, executor, out).executor == 0
  }

  /** When an order can be executed, exactly, for any order the program could be given and any
      executor: price and initiator fee fit into the amount, or custody pays everyone anyway.
      Custody holds 64 bits, as every token account does. */
  lemma ExecutableIff(m: Market, w: World, executor: Pubkey, slot: u64)
    requires Inv(m, w) && IsActive(w) && w.tokens[m.custody] <= U64_MAX
    ensures ExecuteFastOrder(m, w, executor, slot).Some?
      <==>
      && executor in w.tokens && !Info(w).WithinAuctionDuration(m.params, slot) && FillIsReady(m, w)
      && (Info(w).offerPrice + m.order.initAuctionFee <= Info(w).amountIn || CanPayBidders(m, w, executor, slot))
      && (executor == m.custody ==> NothingLeft(m, w, executor, slot))
  {
    hide ComputeDepositPenalty, Charged, SecurityDeposit;
    PenaltyIsExactSplit(m.params, Info(w), slot, AdditionalGracePeriod(m));
  }

  /** No open account at all, custody included, can execute the order at this slot. */
  ghost predicate Stuck(m: Market, w: World, slot: u64) {
    forall executor :: executor in w.tokens ==> ExecuteFastOrder(m, w, executor, slot).None?
  }

  ghost predicate OpenToOthers(m: Market, w: World, key: Pubkey)
    requires IsActive(w)
  {
    key in w.tokens && key != m.custody && key != Info(w).bestOfferToken
  }

  /** When an order that is ready is stuck past its auction, exactly: all accounts but custody
      are closed, and it holds more than the user gets; or price and initiator fee exceed the
      amount and, the initiator's account being open,
      - if he was outbid: the fee and the user's reward exceed all that custody holds;
      - if he was not: his refund leaves 64 bits, and nobody else can pay him either, nor
        custody itself to the last unit. */
  lemma StuckIff(m: Market, w: World, slot: u64)
    requires Inv(m, w) && IsActive(w) && w.tokens[m.custody] <= U64_MAX
    requires !Info(w).WithinAuctionDuration(m.params, slot) && FillIsReady(m, w)
    ensures
      var info, out, fee := Info(w), PenaltyAt(m, Info(w), slot), m.order.initAuctionFee;
      var held := w.tokens[m.custody];
      Stuck(m, w, slot)
      <==>
      || ((forall key :: key in w.tokens ==> key == m.custody) && held != UserAmount(m, info, out))
      || (&& info.amountIn < info.offerPrice + fee && info.initialOfferToken in w.tokens
          && if info.initialOfferToken != info.bestOfferToken then
               held < out.userReward + fee
             else
               && U64_MAX < Backing(info) - out.userReward + fee
               && held + out.penalty != Backing(info) + fee
               && ((exists key :: OpenToOthers(m, w, key)) ==> held + out.penalty < Backing(info) + fee))
  {
    hide ExecuteFastOrder, ComputeDepositPenalty, Charged, SecurityDeposit;
    PenaltyIsExactSplit(m.params, Info(w), slot, AdditionalGracePeriod(m));
    forall executor
      ensures ExecuteFastOrder(m, w, executor, slot).Some?
        <==>
        && executor in w.tokens
        && (Info(w).offerPrice + m.order.initAuctionFee <= Info(w).amountIn || CanPayBidders(m, w, executor, slot))
        && (executor == m.custody ==> NothingLeft(m, w, executor, slot))
    {
      ExecutableIff(m, w, executor, slot);
    }
    var info := Info(w);
    if Stuck(m, w, slot) {
      assert ExecuteFastOrder(m, w, m.custody, slot).None?;
      if key :| key in w.tokens && key != m.custody {
        assert ExecuteFastOrder(m, w, key, slot).None?;
        if info.bestOfferToken in w.tokens {
          assert ExecuteFastOrder(m, w, info.bestOfferToken, slot).None?;
          if other :| OpenToOthers(m, w, other) {
            assert ExecuteFastOrder(m, w, other, slot).None?;
          }
        }
      }
    } else {
      var executor :| executor in w.tokens && ExecuteFastOrder(m, w, executor, slot).Some?;
      assert OpenToOthers(m, w, executor) || executor == info.bestOfferToken || executor == m.custody;
    }
  }

  // ------------------------------------------------------------------------ over whole runs

  ghost predicate Improves(m: Market, w: World, a: Action) {
    a.Improve? && Outcome(m, w, a).Some?
  }

  /** How many improvements of a run were accepted. */
  ghost function Improvements(m: Market, w: World, actions: seq<Action>): nat {
    if actions == [] then 0
    else
      var last := |actions| - 1;
      Improvements(m, w, actions[..last])
      + (if Improves(m, Run(m, w, actions[..last]), actions[last]) then 1 else 0)
  }

  /** While the auction stays active its price falls by the configured factor, and by at
      least one unit, with every accepted improvement. */
  lemma {:induction false} PriceFallsGeometrically(m: Market, w: World, actions: seq<Action>)
    requires Inv(m, w) && IsActive(w) && IsActive(Run(m, w, actions))
    ensures
      var n, start, end := Improvements(m, w, actions), Info(w).offerPrice, Info(Run(m, w, actions)).offerPrice;
      && end + n <= start
      && end * Pow(FEE_PRECISION_MAX, n) <= start * Pow(FEE_PRECISION_MAX - m.params.minOfferDeltaBps, n)
  {
    if actions != [] {
      var last := |actions| - 1;
      var before, a := Run(m, w, actions[..last]), actions[last];
      RunKeepsInv(m, w, actions[..last]);
      RunFromActive(m, w, actions[..last]);
      StepFromActive(m, before, a);
      RunKeepsInv(m, w, actions);
      PriceFallsGeometrically(m, w, actions[..last]);
      StepLowersPrice(m, before, a, Info(w).offerPrice, Improvements(m, w, actions[..last]));
    }
  }

  /** One more step, accepted improvement or not, keeps the price below `n` factors of `start`. */
  lemma StepLowersPrice(m: Market, before: World, a: Action, start: u64, n: nat)
    requires Inv(m, before) && IsActive(before) && IsActive(Step(m, before, a))
    requires var price := Info(before).offerPrice;
      && price + n <= start
      && price * Pow(FEE_PRECISION_MAX, n) <= start * Pow(FEE_PRECISION_MAX - m.params.minOfferDeltaBps, n)
    ensures
      var price, n' := Info(Step(m, before, a)).offerPrice, n + if Improves(m, before, a) then 1 else 0;
      && price + n' <= start
      && price * Pow(FEE_PRECISION_MAX, n') <= start * Pow(FEE_PRECISION_MAX - m.params.minOfferDeltaBps, n')
  {
    hide Pow, SecurityDeposit, ImprovementAllowed;
    if Improves(m, before, a) {
      ImprovementLowersPrice(m.params, Info(before), a.offerPrice);
      PowStep(a.offerPrice, Info(before).offerPrice, FEE_PRECISION_MAX,
              FEE_PRECISION_MAX - m.params.minOfferDeltaBps, n + 1, start);
    }
  }

  /** An active auction ends only by delivering, and that is never undone. */
  lemma StepFromActive(m: Market, w: World, a: Action)
    requires Inv(m, w)
    ensures IsActive(w) ==> IsActive(Step(m, w, a)) || Step(m, w, a).delivered.Some?
    ensures w.delivered.Some? ==> Step(m, w, a).delivered.Some?
  {
    hide SecurityDeposit, ImprovementAllowed, PayExecution;
  }

  lemma {:induction false} RunFromActive(m: Market, w: World, actions: seq<Action>)
    requires Inv(m, w) && IsActive(w)
    ensures IsActive(Run(m, w, actions)) || Run(m, w, actions).delivered.Some?
  {
    if actions != [] {
      var last := |actions| - 1;
      RunFromActive(m, w, actions[..last]);
      RunKeepsInv(m, w, actions[..last]);
      StepFromActive(m, Run(m, w, actions[..last]), actions[last]);
    }
  }

  /** No run of any length accepts more improvements than the user's maximum fee has units. */
  lemma {:induction false} ImprovementsAreBounded(m: Market, w: World, actions: seq<Action>)
    requires Inv(m, w) && w.auction.None?
    ensures Improvements(m, w, actions) <= m.order.maxFee
    ensures var end := Run(m, w, actions); var auction := end.auction;
      && (auction.None? && end.delivered.None? ==> Improvements(m, w, actions) == 0)
      && (auction.Some? && auction.value.info.Some? ==>
            Improvements(m, w, actions) + auction.value.info.value.offerPrice <= m.order.maxFee)
  {
    if actions != [] {
      var last := |actions| - 1;
      var before, a := Run(m, w, actions[..last]), actions[last];
      RunKeepsInv(m, w, actions[..last]);
      ImprovementsAreBounded(m, w, actions[..last]);
      StepIsBounded(m, before, a, Improvements(m, w, actions[..last]));
    }
  }

  /** One more step keeps the sum of price and accepted improvements within the maximum fee. */
  lemma StepIsBounded(m: Market, before: World, a: Action, n: nat)
    requires Inv(m, before) && n <= m.order.maxFee
    requires before.auction.None? && before.delivered.None? ==> n == 0
    requires before.auction.Some? && before.auction.value.info.Some? ==>
      n + before.auction.value.info.value.offerPrice <= m.order.maxFee
    ensures
      var n', end := n + if Improves(m, before, a) then 1 else 0, Step(m, before, a);
      && n' <= m.order.maxFee
      && (end.auction.None? && end.delivered.None? ==> n' == 0)
      && (end.auction.Some? && end.auction.value.info.Some? ==>
            n' + end.auction.value.info.value.offerPrice <= m.order.maxFee)
  {
    hide SecurityDeposit, ImprovementAllowed, PayExecution;
    if Improves(m, before, a) {
      ImprovementLowersPrice(m.params, Info(before), a.offerPrice);
    }
  }

  /** What the user is sure to get: his amount less the initiator fee and the price his
      order was executed at, or less the base fee when there was no auction. When the auction
      account is closed, only the maximum fee bounds what is known of either. */
  ghost predicate UserIsPaid(m: Market, w: World) {
    w.delivered.Some? ==>
      var cost := match w.auction
        case Some(Auction(_, Some(info))) => info.offerPrice
        case Some(Auction(_, None)) => m.baseFee
        case None => m.order.maxFee;
      w.delivered.value >= m.order.amountIn - cost - m.order.initAuctionFee
  }

  lemma StepKeepsUserPaid(m: Market, w: World, a: Action)
    requires Inv(m, w) && UserIsPaid(m, w) && Sound(m.order, m.baseFee)
    ensures UserIsPaid(m, Step(m, w, a))
    ensures w.delivered.Some? ==> Step(m, w, a).delivered == w.delivered
  {
    if a.Execute? && Outcome(m, w, a).Some? {
      ExecutionSharesAreFair(m, w, a.executor, a.slot);
    }
  }

  /** Over every run of a sound order the user is paid at most once, what he was paid never
      changes, and it is never less than his amount minus the fees he agreed to. */
  lemma {:induction false} UserIsPaidOnce(m: Market, w: World, actions: seq<Action>)
    requires Inv(m, w) && UserIsPaid(m, w) && Sound(m.order, m.baseFee)
    ensures UserIsPaid(m, Run(m, w, actions))
    ensures w.delivered.Some? ==> Run(m, w, actions).delivered == w.delivered
    ensures var paid := Run(m, w, actions).delivered;
      paid.Some? ==> paid.value >= m.order.amountIn - m.order.maxFee - m.order.initAuctionFee
  {
    RunKeepsInv(m, w, actions);
    if actions != [] {
      var last := |actions| - 1;
      UserIsPaidOnce(m, w, actions[..last]);
      RunKeepsInv(m, w, actions[..last]);
      StepKeepsUserPaid(m, Run(m, w, actions[..last]), actions[last]);
    }
  }

  // What is done once.

  ghost predicate Starts(m: Market, w: World, a: Action) {
    a.Place? && Outcome(m, w, a).Some?
  }

  /** The user is sent tokens by an execution and by a settlement without auction. */
  ghost predicate Delivers(m: Market, w: World, a: Action) {
    (a.Execute? || a.SettleNone?) && Outcome(m, w, a).Some?
  }

  ghost function Auctions(m: Market, w: World, actions: seq<Action>): nat {
    if actions == [] then 0
    else
      var last := |actions| - 1;
      Auctions(m, w, actions[..last])
      + (if Starts(m, Run(m, w, actions[..last]), actions[last]) then 1 else 0)
  }

  ghost function Deliveries(m: Market, w: World, actions: seq<Action>): nat {
    if actions == [] then 0
    else
      var last := |actions| - 1;
      Deliveries(m, w, actions[..last])
      + (if Delivers(m, Run(m, w, actions[..last]), actions[last]) then 1 else 0)
  }

  /** No auction has started yet, and none has been closed. */
  ghost predicate IsFresh(w: World) {
    w.auction.None? && !w.response.Consumed?
  }

  lemma StepHappensOnce(m: Market, w: World, a: Action)
    requires Inv(m, w)
    ensures Starts(m, w, a) ==> IsFresh(w)
    ensures IsFresh(Step(m, w, a)) ==> IsFresh(w) && !Starts(m, w, a)
    ensures Delivers(m, w, a) ==> w.delivered.None?
    ensures Step(m, w, a).delivered.Some? <==> w.delivered.Some? || Delivers(m, w, a)
  {
    hide SecurityDeposit, ImprovementAllowed, PayExecution;
  }

  /** Over every run an order is auctioned at most once and delivered at most once, although
      anyone can close its auction once it is settled: an order old enough for that is too old
      to be auctioned. */
  lemma {:induction false} AuctionedAndDeliveredOnce(m: Market, w: World, actions: seq<Action>)
    requires Inv(m, w)
    ensures Auctions(m, w, actions) <= (if IsFresh(w) then 1 else 0)
    ensures IsFresh(Run(m, w, actions)) ==> IsFresh(w) && Auctions(m, w, actions) == 0
    ensures Deliveries(m, w, actions) + (if w.delivered.Some? then 1 else 0)
         == if Run(m, w, actions).delivered.Some? then 1 else 0
  {
    if actions != [] {
      var last := |actions| - 1;
      AuctionedAndDeliveredOnce(m, w, actions[..last]);
      RunKeepsInv(m, w, actions[..last]);
      StepHappensOnce(m, Run(m, w, actions[..last]), actions[last]);
    }
  }

  /** A settled order, closed or not, leaves neither of the program's accounts open, so no
      tokens in them. */
  lemma SettledLeavesNothing(m: Market, w: World, actions: seq<Action>)
    requires Inv(m, w)
    requires Run(m, w, actions).response.Consumed?
    ensures m.custody !in Run(m, w, actions).tokens && m.preparedCustody !in Run(m, w, actions).tokens
    ensures Run(m, w, actions).delivered.Some?
  {
    RunKeepsInv(m, w, actions);
  }

  /** After execution the repayment can be settled exactly while someone entitled to it has
      an open account, and it is then handed out in full: all to the best offer, less the
      base fee for whoever prepared it if the execution was penalised; all to one of them
      when the other's account is closed. */
  lemma SettlementAfterExecution(m: Market, w: World)
    requires Inv(m, w) && Sound(m.order, m.baseFee) && w.response.Prepared?
    requires w.auction.Some? && w.auction.value.status.Completed?
    ensures
      var bestOffer, penalty := w.auction.value.info.value.bestOfferToken, w.auction.value.status.executePenalty;
      var baseFeeToken, repayment := w.response.baseFeeToken, w.tokens[m.preparedCustody];
      var settled := SettleAuctionComplete(m, w);
      && (settled.Some? <==> bestOffer in w.tokens || (penalty.Some? && baseFeeToken in w.tokens))
      && (settled.Some? && bestOffer in w.tokens ==>
            var toBaseFee :=
              if penalty.Some? && baseFeeToken in w.tokens && baseFeeToken != bestOffer then m.baseFee else 0;
            && settled.value.tokens[bestOffer] == w.tokens[bestOffer] + repayment - toBaseFee
            && (baseFeeToken in w.tokens && baseFeeToken != bestOffer ==>
                  settled.value.tokens[baseFeeToken] == w.tokens[baseFeeToken] + toBaseFee))
      && (settled.Some? && bestOffer !in w.tokens ==>
            settled.value.tokens[baseFeeToken] == w.tokens[baseFeeToken] + repayment)
  {
  }

  /** A prepared order that nobody bid on can always be settled, a local one after its sequence
      number is reserved: both fees to the protocol, the rest to the user. */
  lemma SettlementWithoutAuction(m: Market, w: World, feeRecipient: Pubkey)
    requires Inv(m, w) && Sound(m.order, m.baseFee) && w.response.Prepared? && w.auction.None?
    requires feeRecipient != m.preparedCustody
    ensures var ready := Step(m, w, ReserveWithoutAuction);
      SettleAuctionNone(m, ready, feeRecipient).Some? <==> feeRecipient in w.tokens
    ensures feeRecipient in w.tokens ==>
      var settled := SettleAuctionNone(m, Step(m, w, ReserveWithoutAuction), feeRecipient).value;
      var fee := m.baseFee + m.order.initAuctionFee;
      && settled.tokens[feeRecipient] == w.tokens[feeRecipient] + fee
      && settled.delivered == Some(w.tokens[m.preparedCustody] - fee)
  {
  }
}
