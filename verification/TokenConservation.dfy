/** No instruction creates or destroys tokens: what all accounts hold, together with what was
    sent on to the user, changes only by what arrives from outside. */
module TokenConservation {
  import opened AuctionLifecycle
  import opened AuctionState
  import opened DepositPenalties
  import opened LifecycleRuns
  import opened MachineInts
  import opened OfferPrices
  import opened Wrappers

  ghost function Total(tokens: Tokens): nat {
    if tokens == map[] then 0
    else
      var key :| key in tokens;
      tokens[key] + Total(tokens - {key})
  }

  /** The sum does not depend on which account is counted first. */
  lemma {:induction false} TotalWithout(tokens: Tokens, key: Pubkey)
    requires key in tokens
    ensures Total(tokens) == tokens[key] + Total(tokens - {key})
    decreases |tokens|
  {
    var first :| first in tokens && Total(tokens) == tokens[first] + Total(tokens - {first});
    if first != key {
      TotalWithout(tokens - {first}, key);
      TotalWithout(tokens - {key}, first);
      assert tokens - {first} - {key} == tokens - {key} - {first};
    }
  }

  lemma TotalSet(tokens: Tokens, key: Pubkey, amount: nat)
    ensures Total(tokens[key := amount]) == Total(tokens) - (if key in tokens then tokens[key] else 0) + amount
  {
    TotalWithout(tokens[key := amount], key);
    assert tokens[key := amount] - {key} == tokens - {key};
    if key in tokens {
      TotalWithout(tokens, key);
    } else {
      assert tokens - {key} == tokens;
    }
  }

  lemma TotalCredit(tokens: Tokens, key: Pubkey, amount: nat)
    ensures Total(Credit(tokens, key, amount)) == Total(tokens) + (if key in tokens then amount else 0)
  {
    hide Total;
    if key in tokens {
      TotalSet(tokens, key, tokens[key] + amount);
    }
  }

  // --------------------------------------------------------------------------- per instruction

  lemma PlaceConserves(m: Market, w: World, a: Action)
    requires Inv(m, w) && a.Place? && Outcome(m, w, a).Some?
    ensures Total(Step(m, w, a).tokens) == Total(w.tokens)
  {
    hide SecurityDeposit, Total;
    var total := m.order.amountIn + SecurityDeposit(m);
    TotalSet(w.tokens, a.offerToken, w.tokens[a.offerToken] - total);
    TotalSet(w.tokens[a.offerToken := w.tokens[a.offerToken] - total], m.custody, total);
  }

  lemma ImproveConserves(m: Market, w: World, a: Action)
    requires Inv(m, w) && a.Improve? && Outcome(m, w, a).Some?
    ensures Total(Step(m, w, a).tokens) == Total(w.tokens)
  {
    hide SecurityDeposit, ImprovementAllowed, Total;
    var info := Info(w);
    var stake := info.TotalDeposit();
    if a.offerToken != info.bestOfferToken {
      var paid := w.tokens[a.offerToken := w.tokens[a.offerToken] - stake];
      TotalSet(w.tokens, a.offerToken, w.tokens[a.offerToken] - stake);
      TotalCredit(paid, m.custody, stake);
      TotalCredit(paid, info.bestOfferToken, stake);
    }
  }

  lemma PayExecutionConserves(m: Market, info: AuctionInfo, tokens: Tokens, executor: Pubkey, out: DepositPenalty)
    requires InfoInv(m, info) && m.custody in tokens && executor in tokens
    requires PayExecution(m, info, tokens, executor, out).Some?
    ensures Total(PayExecution(m, info, tokens, executor, out).value) + UserAmount(m, info, out) == Total(tokens)
  {
    hide SecurityDeposit, UserAmount, Total;
    var s := ExecutionShares(m, info, tokens, executor, out);
    var initiatorPaid := Credit(tokens, info.initialOfferToken, s.initiator);
    var bestOfferPaid := Credit(initiatorPaid, info.bestOfferToken, s.bestOffer);
    var executorPaid := Credit(bestOfferPaid, executor, s.executor);
    TotalCredit(tokens, info.initialOfferToken, s.initiator);
    TotalCredit(initiatorPaid, info.bestOfferToken, s.bestOffer);
    TotalCredit(bestOfferPaid, executor, s.executor);
    TotalWithout(executorPaid, m.custody);
    assert executorPaid[m.custody] == tokens[m.custody];
  }

  lemma ExecuteConserves(m: Market, w: World, a: Action)
    requires Inv(m, w) && a.Execute? && Outcome(m, w, a).Some?
    ensures var end := Step(m, w, a);
      w.delivered.None? && end.delivered.Some? && Total(end.tokens) + end.delivered.value == Total(w.tokens)
  {
    hide PayExecution, UserAmount, Total;
    PayExecutionConserves(m, Info(w), w.tokens, a.executor, PenaltyAt(m, Info(w), a.slot));
  }

  lemma SettleConserves(m: Market, w: World)
    requires Inv(m, w) && SettleAuctionComplete(m, w).Some?
    ensures Total(SettleAuctionComplete(m, w).value.tokens) == Total(w.tokens)
  {
    hide Total;
    var bestOffer := w.auction.value.info.value.bestOfferToken;
    var toBaseFee := BaseFeePayout(m, w, w.auction.value.status.executePenalty, bestOffer).value;
    var baseFeePaid := Credit(w.tokens, w.response.baseFeeToken, toBaseFee);
    var rest := w.tokens[m.preparedCustody] - toBaseFee;
    TotalCredit(w.tokens, w.response.baseFeeToken, toBaseFee);
    TotalCredit(baseFeePaid, bestOffer, rest);
    TotalWithout(Credit(baseFeePaid, bestOffer, rest), m.preparedCustody);
  }

  lemma SettleNoneConserves(m: Market, w: World, feeRecipient: Pubkey)
    requires Inv(m, w) && SettleAuctionNone(m, w, feeRecipient).Some?
    ensures var end := SettleAuctionNone(m, w, feeRecipient).value;
      w.delivered.None? && Total(end.tokens) + end.delivered.value == Total(w.tokens)
  {
    hide Total;
    var fee := SatAdd64(m.baseFee, m.order.initAuctionFee);
    TotalCredit(w.tokens, feeRecipient, fee);
    TotalWithout(Credit(w.tokens, feeRecipient, fee), m.preparedCustody);
  }

  // --------------------------------------------------------------------------- over all runs

  /** Everything held anywhere, and what the user has been sent. */
  ghost function Funds(w: World): nat {
    Total(w.tokens) + w.delivered.GetOr(0)
  }

  /** What arrives from outside in one step: the slow transfer once, and outside activity. */
  ghost function Arrivals(m: Market, w: World, a: Action): int {
    if Outcome(m, w, a).None? then 0
    else if a.Prepare? && w.response.Unprepared? then m.order.amountIn
    else if a.Elsewhere? then Total(a.tokens) - Total(w.tokens)
    else 0
  }

  ghost function AllArrivals(m: Market, w: World, actions: seq<Action>): int {
    if actions == [] then 0
    else
      var last := |actions| - 1;
      AllArrivals(m, w, actions[..last]) + Arrivals(m, Run(m, w, actions[..last]), actions[last])
  }

  lemma StepConserves(m: Market, w: World, a: Action)
    requires Inv(m, w)
    ensures Funds(Step(m, w, a)) == Funds(w) + Arrivals(m, w, a)
  {
    hide Total, PayExecution, SecurityDeposit, ImprovementAllowed;
    if Outcome(m, w, a).Some? {
      match a
      case Place(_, _, _) => PlaceConserves(m, w, a);
      case Improve(_, _, _) => ImproveConserves(m, w, a);
      case Execute(_, _) => ExecuteConserves(m, w, a);
      case Prepare(_) => TotalSet(w.tokens, m.preparedCustody, m.order.amountIn);
      case SettleComplete => SettleConserves(m, w);
      case SettleNone(feeRecipient) => SettleNoneConserves(m, w, feeRecipient);
      case ReserveForAuction(_) =>
      case ReserveWithoutAuction =>
      case Close =>
      case Pass(_) =>
      case Elsewhere(_) =>
    }
  }

  /** Over every run, funds change by exactly what arrived. */
  lemma {:induction false} RunConserves(m: Market, w: World, actions: seq<Action>)
    requires Inv(m, w)
    ensures Funds(Run(m, w, actions)) == Funds(w) + AllArrivals(m, w, actions)
  {
    if actions != [] {
      var last := |actions| - 1;
      RunConserves(m, w, actions[..last]);
      RunKeepsInv(m, w, actions[..last]);
      StepConserves(m, Run(m, w, actions[..last]), actions[last]);
    }
  }
}
