/** What each instruction that touches an order demands and does, in plain sums and numerals:
    when it succeeds, exactly, and every balance and record it leaves. */
module Instructions {
  import opened AuctionLifecycle
  import opened AuctionState
  import opened DepositPenalties
  import opened LifecycleRuns
  import opened MachineInts
  import opened MarketOrders
  import opened OfferPrices
  import opened Wrappers

  ghost predicate Succeeds(m: Market, w: World, a: Action) {
    Outcome(m, w, a).Some?
  }

  /** The deposit asked for besides the amount, before it is cut to 64 bits. */
  ghost function ExactDeposit(m: Market): int {
    m.order.maxFee + m.params.securityDepositBase + m.order.amountIn * m.params.securityDepositBps / 1_000_000
  }

  lemma DepositIsExact(m: Market)
    requires ValidParameters(m.params)
    ensures 0 <= ExactDeposit(m)
    ensures SecurityDeposit(m) == if ExactDeposit(m) <= U64_MAX then ExactDeposit(m) else U64_MAX
  {
    NotionalDepositIsExact(m.params, m.order.amountIn);
    MulBpsIsExact(m.order.amountIn, m.params.securityDepositBps);
  }

  // ------------------------------------------------------------------------------- auctioning

  /** The first offer, as the engine, the order, its path and the bidder allow it. */
  lemma FirstOfferIff(m: Market, w: World, offerToken: Pubkey, offerPrice: u64, at: Setting)
    requires Inv(m, w)
    ensures
      var exact := m.order.maxFee + m.params.securityDepositBase
                   + m.order.amountIn * m.params.securityDepositBps / 1_000_000;
      var deposit := if exact <= U64_MAX then exact else U64_MAX;
      var stake := m.order.amountIn + deposit;
      var a := Place(offerToken, offerPrice, at);
      && (Succeeds(m, w, a) <==>
            && !at.paused && at.configIsCurrent
            && at.fromEndpoint.protocol != Disabled && at.toEndpoint.protocol != Disabled
            && at.toEndpoint.protocol == m.targetProtocol
            && at.fromEndpoint.chain != at.toEndpoint.chain
            && at.fromEndpoint.chain == m.envelope.emitterChain
            && at.fromEndpoint.address == m.envelope.emitterAddress
            && at.toEndpoint.chain == m.order.targetChain
            && (m.order.deadline == 0 || w.clock < m.order.deadline)
            && w.clock < m.envelope.timestamp + 7_200
            && w.auction.None? && offerPrice <= m.order.maxFee
            && offerToken in w.tokens && offerToken != m.preparedCustody
            && stake <= U64_MAX && stake <= w.tokens[offerToken])
      && (Succeeds(m, w, a) ==>
            var info := AuctionInfo(offerToken, offerToken, at.slot, m.order.amountIn, deposit, offerPrice);
            Step(m, w, a) == w.(
              tokens := w.tokens[offerToken := w.tokens[offerToken] - stake][m.custody := stake],
              auction := Some(Auction(Active, Some(info)))))
  {
    hide SecurityDeposit;
    DepositIsExact(m);
  }

  /** Over every run the custody of an active auction covers amount and deposit. */
  lemma CustodyCoversStake(m: Market, w: World, actions: seq<Action>)
    requires Inv(m, w) && IsActive(Run(m, w, actions))
    ensures
      var exact := m.order.maxFee + m.params.securityDepositBase
                   + m.order.amountIn * m.params.securityDepositBps / 1_000_000;
      var end := Run(m, w, actions);
      && m.custody in end.tokens
      && m.order.amountIn + (if exact <= U64_MAX then exact else U64_MAX) <= end.tokens[m.custody]
  {
    hide SecurityDeposit;
    RunKeepsInv(m, w, actions);
    DepositIsExact(m);
  }

  /** An improvement, up to and including the last slot of the auction. The new bidder stakes what
      the old one did, who gets it back; if he cannot, custody keeps both. */
  lemma ImprovementIff(m: Market, w: World, offerToken: Pubkey, offerPrice: u64, slot: u64)
    requires Inv(m, w) && IsActive(w)
    ensures
      var info, a := Info(w), Improve(offerToken, offerPrice, slot);
      var after := Step(m, w, a);
      var stake := info.amountIn + info.securityDeposit;
      && (Succeeds(m, w, a) <==>
            && slot <= info.startSlot + m.params.duration
            && offerPrice < info.offerPrice - info.offerPrice * m.params.minOfferDeltaBps / 1_000_000
            && offerToken in w.tokens && offerToken != m.custody && offerToken != m.preparedCustody
            && (offerToken == info.bestOfferToken || stake <= w.tokens[offerToken]))
      && (Succeeds(m, w, a) ==>
            && after == w.(tokens := after.tokens, auction := after.auction)
            && after.auction == Some(Auction(Active, Some(AuctionInfo(
                 offerToken, info.initialOfferToken, info.startSlot, info.amountIn, info.securityDeposit, offerPrice))))
            && after.tokens == (
                 if offerToken == info.bestOfferToken then w.tokens
                 else if info.bestOfferToken in w.tokens then
                   w.tokens[offerToken := w.tokens[offerToken] - stake]
                           [info.bestOfferToken := w.tokens[info.bestOfferToken] + stake]
                 else
                   w.tokens[offerToken := w.tokens[offerToken] - stake][m.custody := w.tokens[m.custody] + stake]))
  {
    hide SecurityDeposit, ComputeMinAllowedOffer;
    var info := Info(w);
    BoundariesAreClippedSums(info, m.params, None, None);
    MinAllowedOfferBounds(m.params, info);
  }

  /** Without an active auction there is nothing to improve. */
  lemma NothingToImprove(m: Market, w: World, offerToken: Pubkey, offerPrice: u64, slot: u64)
    requires !IsActive(w)
    ensures !Succeeds(m, w, Improve(offerToken, offerPrice, slot))
  {
  }

  // -------------------------------------------------------------------------------- execution

  /** What an execution charges in total, in plain sums: a transfer on the same chain has five
      more slots of grace, others have none. */
  lemma ChargeByProtocol(m: Market, info: AuctionInfo, slot: u64)
    requires ValidParameters(m.params)
    requires info.startSlot + m.params.duration + m.params.gracePeriod + m.params.penaltyPeriod + 5 <= U64_MAX
    ensures
      var out := PenaltyAt(m, info, slot);
      var graceEnd := info.startSlot + m.params.duration + m.params.gracePeriod
                      + (if m.targetProtocol.Local? then 5 else 0);
      var base := info.securityDeposit * m.params.initialPenaltyBps / 1_000_000;
      out.penalty + out.userReward ==
        if slot <= graceEnd then 0
        else if graceEnd + m.params.penaltyPeriod <= slot then info.securityDeposit
        else base + (info.securityDeposit - base) * (slot - graceEnd) / m.params.penaltyPeriod
    ensures var out := PenaltyAt(m, info, slot);
      out.userReward == (out.penalty + out.userReward) * m.params.userPenaltyRewardBps / 1_000_000
  {
    hide ComputeDepositPenalty;
    PenaltyIsExactSplit(m.params, info, slot, AdditionalGracePeriod(m));
    BoundariesAreClippedSums(info, m.params, AdditionalGracePeriod(m), AdditionalGracePeriod(m));
  }

  /** So at the plain end of the penalty period an order for another chain has cost everything,
      while one for the same chain may still be on the slope. */
  lemma ExtraGraceIsForLocalOrders(m: Market, info: AuctionInfo, slot: u64)
    requires ValidParameters(m.params)
    requires info.startSlot + m.params.duration + m.params.gracePeriod + m.params.penaltyPeriod + 5 <= U64_MAX
    ensures
      var out := PenaltyAt(m, info, slot);
      var charged := out.penalty + out.userReward;
      var graceEnd := info.startSlot + m.params.duration + m.params.gracePeriod;
      var end := graceEnd + m.params.penaltyPeriod;
      && (!m.targetProtocol.Local? && end <= slot ==> charged == info.securityDeposit)
      && (m.targetProtocol.Local? && slot <= graceEnd + 5 ==> out == DepositPenalty(0, 0))
      && (m.targetProtocol.Local? && end + 5 <= slot ==> charged == info.securityDeposit)
      && (&& m.targetProtocol.Local? && slot < end + 5
          && info.securityDeposit != 0 && m.params.initialPenaltyBps != 1_000_000
          ==> charged < info.securityDeposit)
  {
    hide ComputeDepositPenalty;
    var g := AdditionalGracePeriod(m);
    PenaltyIsExactSplit(m.params, info, slot, g);
    BoundariesAreClippedSums(info, m.params, g, g);
    var graceSlot := info.GracePeriodEndSlot(m.params, g);
    if graceSlot < slot < info.PenaltyPeriodEndSlot(m.params, g) {
      DecayBounds(m.params, info.securityDeposit, slot - graceSlot, slot - graceSlot);
    }
  }

  /** What a successful execution records and sends, for any order: the status with the penalty,
      if there is one, and to the user what price and fee leave of the amount, with his reward. */
  lemma ExecutionRecords(m: Market, w: World, executor: Pubkey, slot: u64)
    requires Inv(m, w) && Succeeds(m, w, Execute(executor, slot))
    ensures IsActive(w)
    ensures
      var info, out, after := Info(w), PenaltyAt(m, Info(w), slot), Step(m, w, Execute(executor, slot));
      var rest := info.amountIn - info.offerPrice - m.order.initAuctionFee;
      && info.startSlot + m.params.duration < slot
      && (m.targetProtocol.Local? ==> w.sequenceReserved) && !after.sequenceReserved
      && after.auction == Some(Auction(
           Completed(slot, if out.penalty == 0 then None else Some(out.penalty)), Some(info)))
      && after.delivered == Some((if rest < 0 then 0 else rest) + out.userReward)
      && after.response == w.response && after.clock == w.clock
      && after.tokens.Keys == w.tokens.Keys - {m.custody}
  {
    hide ComputeDepositPenalty, SecurityDeposit;
    BoundariesAreClippedSums(Info(w), m.params, None, None);
    PenaltyIsExactSplit(m.params, Info(w), slot, AdditionalGracePeriod(m));
  }

  /** A sequence number is reserved once, for a local order: after its auction's last slot, or
      without an auction when the slow transfer is here. */
  lemma ReservationsIff(m: Market, w: World, slot: u64)
    ensures
      && (Succeeds(m, w, ReserveForAuction(slot)) <==>
            m.targetProtocol.Local? && !w.sequenceReserved && IsActive(w)
            && Info(w).startSlot + m.params.duration < slot)
      && (Succeeds(m, w, ReserveForAuction(slot)) ==>
            Step(m, w, ReserveForAuction(slot)) == w.(sequenceReserved := true))
      && (Succeeds(m, w, ReserveWithoutAuction) <==>
            m.targetProtocol.Local? && !w.sequenceReserved && w.auction.None? && w.response.Prepared?)
      && (Succeeds(m, w, ReserveWithoutAuction) ==>
            Step(m, w, ReserveWithoutAuction)
            == w.(sequenceReserved := true, auction := Some(Auction(NotStarted, None))))
  {
    if IsActive(w) {
      BoundariesAreClippedSums(Info(w), m.params, None, None);
    }
  }

  // ----------------------------------------------------------------- preparation and settlement

  /** The slow transfer is prepared once; later calls go through and change nothing. */
  lemma PreparationIff(m: Market, w: World, baseFeeToken: Pubkey)
    requires Inv(m, w)
    ensures
      && (Succeeds(m, w, Prepare(baseFeeToken)) <==>
            !w.response.Consumed? && baseFeeToken in w.tokens && baseFeeToken != m.preparedCustody)
      && (Succeeds(m, w, Prepare(baseFeeToken)) && w.response.Unprepared? ==>
            m.preparedCustody !in w.tokens && Step(m, w, Prepare(baseFeeToken)) == w.(
              tokens := w.tokens[m.preparedCustody := m.order.amountIn], response := Prepared(baseFeeToken)))
      && (w.response.Prepared? ==> Step(m, w, Prepare(baseFeeToken)) == w)
  {
  }

  /** Over every run the account that is to receive the base fee stays that of the first who
      prepared, until it is settled; and what is settled stays settled. */
  lemma {:induction false} FirstPreparerIsKept(m: Market, w: World, actions: seq<Action>)
    requires w.response.Prepared? || w.response.Consumed?
    ensures Run(m, w, actions).response == w.response || Run(m, w, actions).response.Consumed?
  {
    if actions != [] {
      var last := |actions| - 1;
      FirstPreparerIsKept(m, w, actions[..last]);
      ResponseIsKept(m, Run(m, w, actions[..last]), actions[last]);
    }
  }

  lemma ResponseIsKept(m: Market, w: World, a: Action)
    requires w.response.Prepared? || w.response.Consumed?
    ensures Step(m, w, a).response == w.response || Step(m, w, a).response.Consumed?
  {
    hide PayExecution, SecurityDeposit, ImprovementAllowed;
  }

  /** After an execution, for any order: when it can be settled, what the two entitled accounts
      get and what is recorded. Only a penalised execution owes a base fee. */
  lemma SettlementIff(m: Market, w: World)
    requires Inv(m, w) && w.response.Prepared? && w.auction.Some? && w.auction.value.status.Completed?
    ensures
      var bestOffer, penalty := w.auction.value.info.value.bestOfferToken, w.auction.value.status.executePenalty;
      var preparer, held := w.response.baseFeeToken, w.tokens[m.preparedCustody];
      var bestOpen, preparerOpen := bestOffer in w.tokens, preparer in w.tokens;
      var owesBaseFee := penalty.Some? && preparerOpen && preparer != bestOffer;
      var after := Step(m, w, SettleComplete);
      && (Succeeds(m, w, SettleComplete) <==>
            if bestOpen then owesBaseFee ==> m.baseFee <= held else owesBaseFee)
      && (Succeeds(m, w, SettleComplete) ==>
            && after == w.(tokens := after.tokens, auction := after.auction, response := Consumed)
            && after.auction == Some(Auction(
                 Settled(m.baseFee,
                         if penalty.None? then None
                         else if penalty.value + m.baseFee <= U64_MAX then Some(penalty.value + m.baseFee)
                         else Some(U64_MAX)),
                 w.auction.value.info))
            && after.tokens.Keys == w.tokens.Keys - {m.preparedCustody}
            && (forall key :: key in after.tokens ==>
                  after.tokens[key] == w.tokens[key]
                    + (if key == bestOffer then held - (if owesBaseFee then m.baseFee else 0) else 0)
                    + (if key == preparer && owesBaseFee then if bestOpen then m.baseFee else held else 0)))
  {
  }

  /** Without an auction, for any order. */
  lemma SettlementNoneIff(m: Market, w: World, feeRecipient: Pubkey)
    requires Inv(m, w)
    ensures
      var both := m.baseFee + m.order.initAuctionFee;
      var fee, a := if both <= U64_MAX then both else U64_MAX, SettleNone(feeRecipient);
      && (Succeeds(m, w, a) <==>
            && (if m.targetProtocol.Local? then w.auction == Some(Auction(NotStarted, None)) else w.auction.None?)
            && w.response.Prepared? && feeRecipient in w.tokens
            && (feeRecipient != m.preparedCustody || fee == 0) && fee <= w.tokens[m.preparedCustody])
      && (Succeeds(m, w, a) ==>
            Step(m, w, a) == World(
              (if fee == 0 then w.tokens else w.tokens[feeRecipient := w.tokens[feeRecipient] + fee])
                - {m.preparedCustody},
              Some(Auction(Settled(fee, None), None)), Consumed,
              Some(w.tokens[m.preparedCustody] - fee), false, w.clock))
  {
  }

  /** A settled auction's account can be closed two hours after its order, not before. */
  lemma ClosingIff(m: Market, w: World)
    ensures Succeeds(m, w, Close)
      <==> w.auction.Some? && w.auction.value.status.Settled? && m.envelope.timestamp + 7_200 <= w.clock
    ensures Succeeds(m, w, Close) ==> Step(m, w, Close) == w.(auction := None)
  {
  }

  /** So every settled auction's account can be closed in the end, if time passes. */
  lemma SettledCanBeClosed(m: Market, w: World, time: int)
    requires w.auction.Some? && w.auction.value.status.Settled?
    requires w.clock <= time && m.envelope.timestamp + 7_200 <= time
    ensures Run(m, w, [Pass(time), Close]) == w.(clock := time, auction := None)
  {
    var actions := [Pass(time), Close];
    assert actions[..1] == [Pass(time)] && actions[..1][..0] == [];
    assert Run(m, w, actions[..1]) == w.(clock := time);
  }

  /** What surrounds the program: time can pass to any later moment, and anyone's accounts but
      its own two can take any balance, be opened and closed. */
  lemma SurroundingsAreFree(m: Market, w: World, time: int, tokens: Tokens)
    ensures Succeeds(m, w, Pass(time)) <==> w.clock <= time
    ensures Succeeds(m, w, Pass(time)) ==> Step(m, w, Pass(time)) == w.(clock := time)
    ensures Succeeds(m, w, Elsewhere(tokens))
      <==>
      && (m.custody in tokens <==> m.custody in w.tokens)
      && (m.preparedCustody in tokens <==> m.preparedCustody in w.tokens)
      && (m.custody in w.tokens ==> w.tokens[m.custody] <= tokens[m.custody])
      && (m.preparedCustody in w.tokens ==> w.tokens[m.preparedCustody] <= tokens[m.preparedCustody])
    ensures Succeeds(m, w, Elsewhere(tokens)) ==> Step(m, w, Elsewhere(tokens)) == w.(tokens := tokens)
    ensures forall a :: !Succeeds(m, w, a) ==> Step(m, w, a) == w
  {
    assert ProgramOwned(m, m.custody) && ProgramOwned(m, m.preparedCustody);
  }

  // -------------------------------------------------------------------------- what is counted

  /** The counters of a run move exactly when the auction shows it: a lower price of the same
      active auction, an active auction where there was none. */
  lemma CountersFollowTheAuction(m: Market, w: World, actions: seq<Action>, a: Action)
    requires Inv(m, w)
    ensures
      var before, after := Run(m, w, actions), Run(m, w, actions + [a]);
      && Improvements(m, w, actions + [a]) - Improvements(m, w, actions)
         == (if IsActive(before) && IsActive(after) && Info(after).offerPrice < Info(before).offerPrice then 1 else 0)
      && Auctions(m, w, actions + [a]) - Auctions(m, w, actions)
         == (if before.auction.None? && IsActive(after) then 1 else 0)
    ensures Improvements(m, w, []) == Auctions(m, w, []) == 0
  {
    var before := Run(m, w, actions);
    assert (actions + [a])[..|actions|] == actions;
    RunKeepsInv(m, w, actions);
    StepIsCounted(m, before, a);
  }

  lemma StepIsCounted(m: Market, w: World, a: Action)
    requires Inv(m, w)
    ensures
      var after := Step(m, w, a);
      && (Improves(m, w, a)
          <==> IsActive(w) && IsActive(after) && Info(after).offerPrice < Info(w).offerPrice)
      && (Starts(m, w, a) <==> w.auction.None? && IsActive(after))
  {
    hide SecurityDeposit, ImprovementAllowed, PayExecution;
    if Improves(m, w, a) {
      ImprovementLowersPrice(m.params, Info(w), a.offerPrice);
    }
  }

  // --------------------------------------------------------------------- from the user's side

  /** Whatever happens to an order the router published, its user is sent at least the amount
      less the maximum fee he himself gave, once he is sent anything. */
  lemma UserPaysAtMostHisMaxFee(
    m: Market, w: World, actions: seq<Action>, fast: FastTransferParameters, maxFee: u64)
    requires HandleFastOrder(fast, m.order.amountIn, maxFee, m.order.targetChain, m.order.deadline)
             == Some((m.order, m.baseFee))
    requires Inv(m, w) && w.delivered.None?
    ensures var paid := Run(m, w, actions).delivered;
      paid.Some? ==> m.order.amountIn - maxFee <= paid.value
  {
    RouterPublishesUserTerms(fast, m.order.amountIn, maxFee, m.order.targetChain, m.order.deadline);
    UserIsPaidOnce(m, w, actions);
  }
}
