/** Concrete values: the penalty of the program's own unit test, one complete order, and orders
    the program accepts although their fees exceed their amount. */
module Examples {
  import opened AuctionLifecycle
  import opened AuctionState
  import opened DepositPenalties
  import opened FastTransfers
  import opened LifecycleRuns
  import opened MachineInts
  import opened Wrappers

  /** 25% of the penalty for the user, 10% at once, 2 slots of auction, 4 of grace, 20 of decay. */
  const PARAMS := AuctionParameters(250_000, 100_000, 2, 4, 20, 50_000, 1_000_000, 5_000)

  const START: u64 := 69

  function InfoWith(securityDeposit: u64): AuctionInfo {
    AuctionInfo(0, 0, START, 0, securityDeposit, 0)
  }

  function PenaltyAfter(params: AuctionParameters, slotsElapsed: u16): DepositPenalty {
    ComputeDepositPenalty(params, InfoWith(10_000_000), START + slotsElapsed, None)
  }

  lemma PenaltyCases()
    ensures ValidParameters(PARAMS)
    ensures PenaltyAfter(PARAMS, 5) == DepositPenalty(0, 0)
    ensures PenaltyAfter(PARAMS, 7) == DepositPenalty(1_087_500, 362_500)
    ensures PenaltyAfter(PARAMS, 16) == DepositPenalty(4_125_000, 1_375_000)
    ensures PenaltyAfter(PARAMS, 25) == DepositPenalty(7_162_500, 2_387_500)
    ensures PenaltyAfter(PARAMS, 26) == DepositPenalty(7_500_000, 2_500_000)
  {
    hide ComputeDepositPenalty;
    var info := InfoWith(10_000_000);
    PenaltyIsExactSplit(PARAMS, info, START + 5, None);
    PenaltyIsExactSplit(PARAMS, info, START + 7, None);
    PenaltyIsExactSplit(PARAMS, info, START + 16, None);
    PenaltyIsExactSplit(PARAMS, info, START + 25, None);
    PenaltyIsExactSplit(PARAMS, info, START + 26, None);
  }

  const ENVELOPE := Envelope(1_700_000_000, 2, 7)

  const CLOCK := 1_700_000_010

  const AT := Setting(100, false, true, RouterEndpoint(2, 7, Cctp), RouterEndpoint(3, 8, Cctp))

  function MarketFor(order: FastOrder, baseFee: u64): Market {
    Market(PARAMS, order, ENVELOPE, baseFee, Cctp, 1, 2)
  }

  /** A thousand dollars moved for four, one of them to the initiator's account 10. */
  lemma ThousandDollarOrder()
    ensures
      var m := MarketFor(FastOrder(1_000_000_000, 5_000_000, 1_000_000, 3, 0), 1_000_000);
      var start := World(map[10 := 2_000_000_000, 11 := 2_000_000_000], None, Unprepared, None, false, CLOCK);
      var end := Run(m, start, Story(Parties(10, 11, 11, 11), 5_000_000, 4_000_000, AT, 101, 103));
      && end.delivered == Some(995_000_000)
      && end.tokens == map[10 := 2_001_000_000, 11 := 2_004_000_000]
  {
    var m := MarketFor(FastOrder(1_000_000_000, 5_000_000, 1_000_000, 3, 0), 1_000_000);
    var start := World(map[10 := 2_000_000_000, 11 := 2_000_000_000], None, Unprepared, None, false, CLOCK);
    assert SecurityDeposit(m) == 11_000_000;
    FastTransferEndToEnd(m, start, 10, 11, 5_000_000, 4_000_000, AT, 101, 103);
  }

  /** The world after account 10 opened an auction and 11 improved it to `price`. */
  ghost function Improved(m: Market, price: u64): World {
    var stake := m.order.amountIn + SecurityDeposit(m);
    World(map[1 := stake, 10 := 0, 11 := 0, 12 := 0],
          Some(Auction(Active, Some(AuctionInfo(11, 10, 100, m.order.amountIn, SecurityDeposit(m), price)))),
          Unprepared, None, false, CLOCK)
  }

  /** Price 60 and initiator fee 50 on an amount of 100: in time, only the best offer can
      execute, out of its own stake. */
  lemma OnlyBestOfferCanExecute()
    ensures
      var m := MarketFor(FastOrder(100, 80, 50, 3, 0), 10);
      var w := Improved(m, 60);
      && Inv(m, w)
      && ExecuteFastOrder(m, w, 11, 103).Some?
      && ExecuteFastOrder(m, w, 12, 103).None?
      && ExecuteFastOrder(m, w, 10, 103).None?
  {
    var m := MarketFor(FastOrder(100, 80, 50, 3, 0), 10);
    var w := Improved(m, 60);
    assert SecurityDeposit(m) == 1_000_080;
    PenaltyEndpoints(PARAMS, Info(w), 103, None);
    ExecutableIff(m, w, 11, 103);
    ExecutableIff(m, w, 12, 103);
    ExecutableIff(m, w, 10, 103);
  }

  /** An initiator fee above everything custody holds: the program accepts the offers, and
      then nobody can execute. */
  lemma FeeAboveCustodyIsStuck()
    ensures
      var m := MarketFor(FastOrder(100, 80, 2_000_000, 3, 0), 10);
      Inv(m, Improved(m, 60)) && Stuck(m, Improved(m, 60), 103)
  {
    var m := MarketFor(FastOrder(100, 80, 2_000_000, 3, 0), 10);
    var w := Improved(m, 60);
    assert SecurityDeposit(m) == 1_000_080;
    assert w.tokens[m.custody] == 1_000_180;
    StuckIff(m, w, 103);
  }
}
