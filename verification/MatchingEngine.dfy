/** The instruction handlers themselves, as sequences of token transfers and account
    updates. Each is proved to do exactly what `AuctionLifecycle` says. */
module MatchingEngineHandlers {
  import opened AuctionLifecycle
  import opened AuctionState
  import opened DepositPenalties
  import opened MachineInts
  import opened Wrappers

  /** When custody holds just the user's amount after some payments, those payments were the
      shares. */
  lemma CustodyIsEmptied(
    m: Market, info: AuctionInfo, tokens: Tokens, executor: Pubkey, out: DepositPenalty,
    ledger: Tokens, rest: nat)
    requires m.custody in tokens && executor in tokens
    requires OwedToBestOffer(m, info, tokens, executor, out).Some?
    requires var s := ExecutionShares(m, info, tokens, executor, out);
             && s.initiator + s.bestOffer + rest + s.user == tokens[m.custody]
             && (executor == m.custody ==> rest == 0)
             && ledger == Credit(Credit(Credit(tokens, info.initialOfferToken, s.initiator),
                                        info.bestOfferToken, s.bestOffer), executor, rest)[m.custody := s.user]
    ensures PayExecution(m, info, tokens, executor, out) == Some(ledger - {m.custody})
  {
    var s := ExecutionShares(m, info, tokens, executor, out);
    assert rest == s.executor;
    var credited := Credit(Credit(Credit(tokens, info.initialOfferToken, s.initiator),
                                  info.bestOfferToken, s.bestOffer), executor, rest);
    assert credited[m.custody := s.user] - {m.custody} == credited - {m.custody};
  }

  /** A transfer out of custody, which holds `held`, credits the destination: or nobody, when
      that is custody itself. */
  lemma TransferCredits(tokens: Tokens, custody: Pubkey, held: nat, destination: Pubkey, amount: nat)
    requires custody in tokens && destination in tokens
    ensures Transfer(tokens[custody := held], custody, destination, amount)
      == if held < amount then None
         else if destination == custody then Some(tokens[custody := held])
         else Some(Credit(tokens, destination, amount)[custody := held - amount])
    ensures Credit(tokens, destination, amount).Keys == tokens.Keys
  {
    var ledger := tokens[custody := held];
    if amount <= held {
      var paid := Transfer(ledger, custody, destination, amount).value;
      if destination == custody {
        assert paid == ledger;
      } else {
        assert paid == Credit(tokens, destination, amount)[custody := held - amount];
      }
    }
  }

  lemma CreditNothing(tokens: Tokens, key: Pubkey, amount: nat)
    ensures key !in tokens || amount == 0 ==> Credit(tokens, key, amount) == tokens
    ensures Credit(tokens, key, amount).Keys == tokens.Keys
  {
  }

  lemma SharesDoNotFit(m: Market, info: AuctionInfo, tokens: Tokens, executor: Pubkey, out: DepositPenalty)
    requires m.custody in tokens && OwedToBestOffer(m, info, tokens, executor, out).Some?
    requires var s := ExecutionShares(m, info, tokens, executor, out);
      s.executor < 0 || (executor == m.custody && s.executor != 0)
    ensures PayExecution(m, info, tokens, executor, out) == None
  {
  }

  class MatchingEngine {
    const m: Market
    var tokens: Tokens
    var auction: Option<Auction>
    var response: OrderResponse
    var delivered: Option<nat>
    var sequenceReserved: bool
    var clock: int

    ghost function View(): World
      reads this
    {
      World(tokens, auction, response, delivered, sequenceReserved, clock)
    }

    ghost predicate Valid()
      reads this
    {
      Inv(m, View())
    }

    /** A handler that fails leaves every account as it was. */
    twostate predicate Commits(outcome: Option<World>, ok: bool)
      reads this
    {
      ok == outcome.Some? && View() == (if outcome.Some? then outcome.value else old(View()))
    }

    constructor (m: Market, tokens: Tokens, clock: int)
      requires ValidParameters(m.params) && m.custody != m.preparedCustody
      requires m.custody !in tokens && m.preparedCustody !in tokens
      ensures Valid() && this.m == m
      ensures View() == World(tokens, None, Unprepared, None, false, clock)
    {
      this.m, this.tokens := m, tokens;
      auction, response, delivered := None, Unprepared, None;
      sequenceReserved, this.clock := false, clock;
    }

    /** The clock every instruction reads; it never goes back. */
    method Pass(time: int)
      requires Valid() && clock <= time
      modifies this`clock
      ensures Valid() && View() == old(View()).(clock := time)
    {
      clock := time;
    }

    method HandlePlaceInitialOffer(offerToken: Pubkey, offerPrice: u64, at: Setting) returns (ok: bool)
      requires Valid()
      modifies this
      ensures Valid() && Commits(old(PlaceInitialOffer(m, View(), offerToken, offerPrice, at)), ok)
    {
      var path := CheckFastOrderPath(m, at);
      if at.paused || !at.configIsCurrent || !path || at.toEndpoint.protocol != m.targetProtocol { return false; }
      var beforeDeadline := m.order.deadline == 0 || clock < m.order.deadline;
      if !beforeDeadline || clock >= m.envelope.timestamp + VAA_AUCTION_EXPIRATION_TIME { return false; }
      if auction.Some? || offerToken == m.preparedCustody || offerToken !in tokens { return false; }
      if offerPrice > m.order.maxFee { return false; }

      var amountIn := m.order.amountIn;
      var securityDeposit := SatAdd64(m.order.maxFee, ComputeNotionalSecurityDeposit(m.params, amountIn));
      if amountIn + securityDeposit > U64_MAX { return false; }

      var ledger := Transfer(tokens[m.custody := 0], offerToken, m.custody, amountIn + securityDeposit);
      if ledger.None? { return false; }

      tokens := ledger.value;
      auction := Some(Auction(Active, Some(
        AuctionInfo(offerToken, offerToken, at.slot, amountIn, securityDeposit, offerPrice))));
      PlaceKeepsInv(m, old(View()), offerToken, offerPrice, at);
      return true;
    }

    /** The endpoints must be live, different, and those of the order and its envelope. */
    static method CheckFastOrderPath(m: Market, at: Setting) returns (ok: bool)
      ensures ok <==>
        && at.fromEndpoint.protocol != Disabled && at.toEndpoint.protocol != Disabled
        && m.envelope.emitterChain == at.fromEndpoint.chain != at.toEndpoint.chain == m.order.targetChain
        && at.fromEndpoint.address == m.envelope.emitterAddress
    {
      if at.fromEndpoint.protocol == Disabled || at.toEndpoint.protocol == Disabled { return false; }
      if at.fromEndpoint.chain == at.toEndpoint.chain { return false; }
      if at.fromEndpoint.chain != m.envelope.emitterChain { return false; }
      if at.fromEndpoint.address != m.envelope.emitterAddress { return false; }
      return at.toEndpoint.chain == m.order.targetChain;
    }

    method HandleImproveOffer(offerToken: Pubkey, offerPrice: u64, slot: u64) returns (ok: bool)
      requires Valid()
      modifies this
      ensures Valid() && Commits(old(ImproveOffer(m, View(), offerToken, offerPrice, slot)), ok)
    {
      hide ComputeMinAllowedOffer, SecurityDeposit;
      if auction.None? || auction.value.status != Active || auction.value.info.None? { return false; }
      var info := auction.value.info.value;
      if !info.WithinAuctionDuration(m.params, slot) { return false; }
      if offerPrice >= ComputeMinAllowedOffer(m.params, info) { return false; }
      if offerToken == m.custody || offerToken == m.preparedCustody || offerToken !in tokens { return false; }

      var ledger := tokens;
      if offerToken != info.bestOfferToken {
        var totalDeposit := info.TotalDeposit();
        if info.bestOfferToken in ledger {
          var refunded := Transfer(ledger, m.custody, info.bestOfferToken, totalDeposit);
          if refunded.None? { return false; }
          ledger := refunded.value;
        }
        var staked := Transfer(ledger, offerToken, m.custody, totalDeposit);
        if staked.None? { return false; }
        ledger := staked.value;
        assert ledger == Credit(tokens[offerToken := tokens[offerToken] - totalDeposit],
                                if info.bestOfferToken in tokens then info.bestOfferToken else m.custody, totalDeposit);
      }

      tokens := ledger;
      auction := Some(Auction(Active, Some(info.(bestOfferToken := offerToken, offerPrice := offerPrice))));
      ImproveKeepsInv(m, old(View()), offerToken, offerPrice, slot);
      return true;
    }

    method HandleExecuteFastOrder(executorToken: Pubkey, currentSlot: u64) returns (ok: bool)
      requires Valid()
      modifies this
      ensures Valid() && Commits(old(ExecuteFastOrder(m, View(), executorToken, currentSlot)), ok)
    {
      hide SecurityDeposit, ComputeDepositPenalty;
      if auction.None? || auction.value.status != Active || auction.value.info.None? { return false; }
      var info := auction.value.info.value;
      if info.WithinAuctionDuration(m.params, currentSlot) || executorToken !in tokens { return false; }

      if m.targetProtocol.Local? && !sequenceReserved { return false; }

      var grace := if m.targetProtocol.Local? then Some(EXECUTE_FAST_ORDER_LOCAL_ADDITIONAL_GRACE_PERIOD) else None;
      var out := ComputeDepositPenalty(m.params, info, currentSlot, grace);
      var ledger, userAmount := DistributeCustody(m, info, tokens, executorToken, out);
      if ledger.None? { return false; }

      tokens := ledger.value;
      auction := Some(Auction(
        Completed(currentSlot, if out.penalty > 0 then Some(out.penalty) else None), Some(info)));
      delivered := Some(userAmount);
      sequenceReserved := false;
      ExecuteKeepsInv(m, old(View()), executorToken, currentSlot);
      return true;
    }

    /** The transfers of an execution, out of the custody account and in this order. */
    static method DistributeCustody(
      m: Market, info: AuctionInfo, tokens: Tokens, executorToken: Pubkey, out: DepositPenalty)
      returns (paid: Option<Tokens>, userAmount: u64)
      requires m.custody in tokens && executorToken in tokens
      requires info.bestOfferToken != m.custody && info.initialOfferToken != m.custody
      ensures paid == PayExecution(m, info, tokens, executorToken, out)
      ensures userAmount == UserAmount(m, info, out)
    {
      userAmount := SatAdd64(
        SatSub64(SatSub64(info.amountIn, info.offerPrice), m.order.initAuctionFee), out.userReward);
      var remaining := SatSub(tokens[m.custody], userAmount);
      var depositAndFee := SatSub64(SatAdd64(info.offerPrice, info.securityDeposit), out.userReward);
      if out.penalty > 0 && info.bestOfferToken != executorToken {
        depositAndFee := SatSub64(depositAndFee, out.penalty);
      }

      var ledger, initiatorFee, owed := PayInitiator(m, info, tokens, depositAndFee);
      if ledger.None? { return None, userAmount; }
      remaining := SatSub(remaining, initiatorFee);
      paid := PayBidders(m, info, tokens, executorToken, out, ledger.value, remaining, owed, userAmount);
    }

    /** The initiator's fee goes to him directly, or is added to what he gets as best offer. */
    static method PayInitiator(m: Market, info: AuctionInfo, tokens: Tokens, depositAndFee: u64)
      returns (ledger: Option<Tokens>, initiatorFee: u64, owed: u64)
      requires m.custody in tokens && info.initialOfferToken != m.custody
      ensures initiatorFee == (if info.initialOfferToken in tokens && info.initialOfferToken != info.bestOfferToken
                               then m.order.initAuctionFee else 0)
      ensures ledger.None? <==>
        || initiatorFee > tokens[m.custody]
        || (info.initialOfferToken in tokens && info.initialOfferToken == info.bestOfferToken
            && depositAndFee + m.order.initAuctionFee > U64_MAX)
      ensures ledger.Some? ==>
        && ledger.value == Credit(tokens, info.initialOfferToken, initiatorFee)
                           [m.custody := tokens[m.custody] - initiatorFee]
        && owed == depositAndFee + (if info.initialOfferToken in tokens && info.initialOfferToken == info.bestOfferToken
                                    then m.order.initAuctionFee else 0)
    {
      ledger, initiatorFee, owed := Some(tokens), 0, depositAndFee;
      if info.initialOfferToken in tokens {
        if info.bestOfferToken != info.initialOfferToken {
          initiatorFee := m.order.initAuctionFee;
          ledger := Transfer(tokens, m.custody, info.initialOfferToken, initiatorFee);
        } else if depositAndFee + m.order.initAuctionFee > U64_MAX {
          ledger := None;
        } else {
          owed := depositAndFee + m.order.initAuctionFee;
        }
      }
    }

    /** The best offer takes all that remains when he executes; otherwise he gets what he is
        owed, if he can, and the executor the rest. */
    static method PayBidders(
      m: Market, info: AuctionInfo, tokens: Tokens, executorToken: Pubkey, out: DepositPenalty,
      initiatorPaid: Tokens, afterInitiator: nat, owed: u64, userAmount: u64)
      returns (paid: Option<Tokens>)
      requires m.custody in tokens && executorToken in tokens
      requires info.bestOfferToken != m.custody && info.initialOfferToken != m.custody
      requires OwedToBestOffer(m, info, tokens, executorToken, out) == Some(owed)
      requires var s := ExecutionShares(m, info, tokens, executorToken, out);
        && s.initiator <= tokens[m.custody]
        && initiatorPaid == Credit(tokens, info.initialOfferToken, s.initiator)
                            [m.custody := tokens[m.custody] - s.initiator]
        && afterInitiator == SatSub(SatSub(tokens[m.custody], s.user), s.initiator)
      requires userAmount == UserAmount(m, info, out)
      ensures paid == PayExecution(m, info, tokens, executorToken, out)
    {
      hide OwedToBestOffer, UserAmount, PayExecution, Transfer, Credit;
      ghost var s := ExecutionShares(m, info, tokens, executorToken, out);
      ghost var held := tokens[m.custody] - s.initiator;
      ghost var accounts := Credit(tokens, info.initialOfferToken, s.initiator);
      var ledger, remaining := initiatorPaid, afterInitiator;
      CreditNothing(tokens, info.initialOfferToken, s.initiator);
      CreditNothing(accounts, info.bestOfferToken, s.bestOffer);
      if info.bestOfferToken == executorToken {
        TransferCredits(accounts, m.custody, held, executorToken, remaining);
        var rest := Transfer(ledger, m.custody, info.bestOfferToken, remaining);
        if rest.None? {
          SharesDoNotFit(m, info, tokens, executorToken, out);
          return None;
        }
        ledger := rest.value;
      } else {
        if info.bestOfferToken in tokens {
          TransferCredits(accounts, m.custody, held, info.bestOfferToken, owed);
          var returned := Transfer(ledger, m.custody, info.bestOfferToken, owed);
          if returned.None? {
            SharesDoNotFit(m, info, tokens, executorToken, out);
            return None;
          }
          ledger, remaining := returned.value, SatSub(remaining, owed);
        }
        accounts, held := Credit(accounts, info.bestOfferToken, s.bestOffer), held - s.bestOffer;
        TransferCredits(accounts, m.custody, held, executorToken, remaining);
        CreditNothing(accounts, executorToken, remaining);
        if remaining > 0 {
          var rest := Transfer(ledger, m.custody, executorToken, remaining);
          if rest.None? {
            SharesDoNotFit(m, info, tokens, executorToken, out);
            return None;
          }
          ledger := rest.value;
        }
      }

      // The user's amount leaves custody, which must then be empty to be closed.
      if ledger[m.custody] != userAmount {
        SharesDoNotFit(m, info, tokens, executorToken, out);
        return None;
      }
      ghost var rest := if executorToken == m.custody then 0 else remaining;
      CreditNothing(Credit(accounts, info.bestOfferToken, s.bestOffer), executorToken, rest);
      CustodyIsEmptied(m, info, tokens, executorToken, out, ledger, rest);
      return Some(ledger - {m.custody});
    }

    method HandlePrepareOrderResponse(baseFeeToken: Pubkey) returns (ok: bool)
      requires Valid()
      modifies this
      ensures Valid() && Commits(old(PrepareOrderResponse(m, View(), baseFeeToken)), ok)
    {
      if baseFeeToken !in tokens || baseFeeToken == m.preparedCustody || response.Consumed? { return false; }
      if response.Prepared? { return true; }
      tokens := tokens[m.preparedCustody := m.order.amountIn];
      response := Prepared(baseFeeToken);
      PrepareKeepsInv(m, old(View()), baseFeeToken);
      return true;
    }

    method HandleSettleAuctionComplete() returns (ok: bool)
      requires Valid()
      modifies this
      ensures Valid() && Commits(old(SettleAuctionComplete(m, View())), ok)
    {
      if auction.None? || auction.value.info.None? || !auction.value.status.Completed? { return false; }
      if !response.Prepared? { return false; }
      var executePenalty := auction.value.status.executePenalty;
      var ledger := PayRepayment(
        m, View(), tokens, response.baseFeeToken, auction.value.info.value.bestOfferToken, executePenalty);
      if ledger.None? { return false; }

      tokens := ledger.value;
      var totalPenalty := if executePenalty.Some? then Some(SatAdd64(executePenalty.value, m.baseFee)) else None;
      auction := Some(Auction(Settled(m.baseFee, totalPenalty), auction.value.info));
      response := Consumed;
      SettleKeepsInv(m, old(View()));
      return true;
    }

    /** Divides the repayment between the two entitled accounts, transfers both parts and
        closes the custody account. */
    static method PayRepayment(
      m: Market, ghost w: World, tokens: Tokens, baseFeeToken: Pubkey, bestOfferToken: Pubkey,
      executePenalty: Option<u64>)
      returns (ledger: Option<Tokens>)
      requires w.tokens == tokens && w.response == Prepared(baseFeeToken) && m.preparedCustody in tokens
      requires baseFeeToken != m.preparedCustody && bestOfferToken != m.preparedCustody
      ensures var toBaseFee := BaseFeePayout(m, w, executePenalty, bestOfferToken);
        ledger == if toBaseFee.None? || toBaseFee.value > tokens[m.preparedCustody] then None
                  else Some(Credit(Credit(tokens, baseFeeToken, toBaseFee.value),
                                   bestOfferToken, tokens[m.preparedCustody] - toBaseFee.value) - {m.preparedCustody})
    {
      var repayment := tokens[m.preparedCustody];
      var toBaseFee: Option<nat>, toBestOffer: Option<nat> := None, None;
      if executePenalty.None? {
        if bestOfferToken !in tokens { return None; }
        toBestOffer := Some(repayment);
      } else if baseFeeToken in tokens && bestOfferToken in tokens {
        if baseFeeToken == bestOfferToken {
          toBestOffer := Some(repayment);
        } else {
          toBaseFee, toBestOffer := Some(m.baseFee), Some(SatSub(repayment, m.baseFee));
        }
      } else if baseFeeToken in tokens {
        toBaseFee := Some(repayment);
      } else if bestOfferToken in tokens {
        toBestOffer := Some(repayment);
      } else {
        return None;
      }

      ledger := Some(tokens);
      if toBaseFee.Some? {
        ledger := Transfer(tokens, m.preparedCustody, baseFeeToken, toBaseFee.value);
        if ledger.None? { return None; }
      }
      var baseFeePaid := ledger.value;
      assert baseFeePaid == Credit(tokens, baseFeeToken, toBaseFee.GetOr(0))
                            [m.preparedCustody := repayment - toBaseFee.GetOr(0)];
      if toBestOffer.Some? {
        ledger := Transfer(baseFeePaid, m.preparedCustody, bestOfferToken, toBestOffer.value);
        if ledger.None? { return None; }
      }
      ghost var credited := Credit(Credit(tokens, baseFeeToken, toBaseFee.GetOr(0)),
                                   bestOfferToken, toBestOffer.GetOr(0));
      assert ledger.value == credited[m.preparedCustody := repayment - toBaseFee.GetOr(0) - toBestOffer.GetOr(0)];

      // The custody account can be closed only when empty.
      if ledger.value[m.preparedCustody] != 0 { return None; }
      assert ledger.value - {m.preparedCustody} == credited - {m.preparedCustody};
      return Some(ledger.value - {m.preparedCustody});
    }

    method HandleSettleAuctionNone(feeRecipientToken: Pubkey) returns (ok: bool)
      requires Valid()
      modifies this
      ensures Valid() && Commits(old(SettleAuctionNone(m, View(), feeRecipientToken)), ok)
    {
      hide SecurityDeposit;
      if !response.Prepared? { return false; }
      if m.targetProtocol.Local? {
        if auction.None? || auction.value.status != NotStarted || !sequenceReserved { return false; }
      } else {
        if auction.Some? { return false; }
      }
      var amount := tokens[m.preparedCustody];
      var fee := SatAdd64(m.baseFee, m.order.initAuctionFee);
      var ledger := Transfer(tokens, m.preparedCustody, feeRecipientToken, fee);
      if ledger.None? { return false; }

      var userAmount := SatSub(amount, fee);
      if ledger.value[m.preparedCustody] != userAmount { return false; }

      tokens := ledger.value - {m.preparedCustody};
      auction := Some(Auction(Settled(fee, None), None));
      response := Consumed;
      delivered := Some(userAmount);
      sequenceReserved := false;
      SettleNoneKeepsInv(m, old(View()), feeRecipientToken);
      return true;
    }

    method HandleReserveForAuction(slot: u64) returns (ok: bool)
      requires Valid()
      modifies this
      ensures Valid() && Commits(old(ReserveForAuction(m, View(), slot)), ok)
    {
      if !m.targetProtocol.Local? || sequenceReserved { return false; }
      if auction.None? || auction.value.info.None? || auction.value.status != Active { return false; }
      if auction.value.info.value.WithinAuctionDuration(m.params, slot) { return false; }
      sequenceReserved := true;
      ReserveForAuctionKeepsInv(m, old(View()), slot);
      return true;
    }

    method HandleReserveWithoutAuction() returns (ok: bool)
      requires Valid()
      modifies this
      ensures Valid() && Commits(old(ReserveWithoutAuction(m, View())), ok)
    {
      if !m.targetProtocol.Local? || sequenceReserved || auction.Some? || !response.Prepared? { return false; }
      auction := Some(Auction(NotStarted, None));
      sequenceReserved := true;
      ReserveWithoutAuctionKeepsInv(m, old(View()));
      return true;
    }

    method HandleCloseAuction() returns (ok: bool)
      requires Valid()
      modifies this
      ensures Valid() && Commits(old(CloseAuction(m, View())), ok)
    {
      if auction.None? || !auction.value.status.Settled? { return false; }
      if clock < m.envelope.timestamp + VAA_AUCTION_EXPIRATION_TIME { return false; }
      auction := None;
      CloseKeepsInv(m, old(View()));
      return true;
    }
  }
}
