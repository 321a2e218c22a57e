/** The client SDK's own computation of the penalty, on unbounded integers, against the
    on-chain one. */
module SdkPenalties {
  import opened AuctionState
  import opened DepositPenalties
  import opened MachineInts
  import opened OfferPrices
  import opened Wrappers

  /** The elapsed slots are counted from the end of the auction and may be negative. Every
      division has non-negative operands, where truncation and floor agree. */
  function SdkComputeDepositPenalty(params: AuctionParameters, info: AuctionInfo, currentSlot: u64): (int, int) {
    var gracePeriod := params.gracePeriod;
    var slotsElapsed := currentSlot - info.startSlot - params.duration;
    if slotsElapsed <= gracePeriod then
      (0, 0)
    else
      var amount := info.securityDeposit;
      var penaltyPeriod := slotsElapsed - gracePeriod;
      if penaltyPeriod >= params.penaltyPeriod || params.initialPenaltyBps == FEE_PRECISION_MAX then
        var userReward := amount * params.userPenaltyRewardBps / FEE_PRECISION_MAX;
        (amount - userReward, userReward)
      else
        var basePenalty := amount * params.initialPenaltyBps / FEE_PRECISION_MAX;
        var penalty := basePenalty + (amount - basePenalty) * penaltyPeriod / params.penaltyPeriod;
        var userReward := penalty * params.userPenaltyRewardBps / FEE_PRECISION_MAX;
        (penalty - userReward, userReward)
  }

  function SdkComputeMinOfferDelta(params: AuctionParameters, offerPrice: u64): int {
    offerPrice * params.minOfferDeltaBps / FEE_PRECISION_MAX + 1
  }

  function SdkComputeNotionalSecurityDeposit(params: AuctionParameters, amountIn: u64): int {
    params.securityDepositBase + amountIn * params.securityDepositBps / FEE_PRECISION_MAX
  }

  /** The slots where the program's saturation shows: the penalty period would end past the
      last slot, so the program charges everything at the last slot while the SDK is still
      on the slope. */
  predicate PenaltyEndIsCut(params: AuctionParameters, info: AuctionInfo) {
    var graceEnd := info.startSlot + params.duration + params.gracePeriod;
    graceEnd < U64_MAX < graceEnd + params.penaltyPeriod
  }

  /** What a late execution costs when no boundary is cut. */
  ghost function UncutCharge(params: AuctionParameters, info: AuctionInfo, slot: u64): int
    requires params.penaltyPeriod != 0
  {
    var elapsed := slot - info.startSlot - params.duration - params.gracePeriod;
    if elapsed <= 0 then 0
    else if elapsed >= params.penaltyPeriod then info.securityDeposit
    else DecayedCharge(params, info.securityDeposit, elapsed)
  }

  lemma SdkSplitsUncutCharge(params: AuctionParameters, info: AuctionInfo, slot: u64)
    requires ValidParameters(params)
    ensures var c := UncutCharge(params, info, slot);
      var userReward := Share(c, params.userPenaltyRewardBps);
      SdkComputeDepositPenalty(params, info, slot) == (c - userReward, userReward)
  {
    var elapsed := slot - info.startSlot - params.duration - params.gracePeriod;
    if elapsed <= 0 {
      assert Share(0, params.userPenaltyRewardBps) == 0;
    } else if elapsed < params.penaltyPeriod {
      SdkOnTheSlope(params, info, slot);
    }
  }

  /** On the slope the SDK's terms are those of the exact charge, or all of the deposit at once. */
  lemma SdkOnTheSlope(params: AuctionParameters, info: AuctionInfo, slot: u64)
    requires ValidParameters(params)
    requires 0 < slot - info.startSlot - params.duration - params.gracePeriod < params.penaltyPeriod
    ensures
      var c := DecayedCharge(params, info.securityDeposit,
                             slot - info.startSlot - params.duration - params.gracePeriod);
      var userReward := Share(c, params.userPenaltyRewardBps);
      SdkComputeDepositPenalty(params, info, slot) == (c - userReward, userReward)
  {
    if params.initialPenaltyBps == FEE_PRECISION_MAX {
      hide DecayedCharge;
      var elapsed := slot - info.startSlot - params.duration - params.gracePeriod;
      DecayBounds(params, info.securityDeposit, elapsed, elapsed);
    }
  }

  lemma ChargeIsUncutIff(params: AuctionParameters, info: AuctionInfo, slot: u64)
    requires ValidParameters(params)
    ensures Charged(params, info, slot, None) == UncutCharge(params, info, slot)
      <==> !(PenaltyEndIsCut(params, info) && slot == U64_MAX
             && info.securityDeposit != 0 && params.initialPenaltyBps != FEE_PRECISION_MAX)
  {
    hide DecayedCharge;
    BoundariesAreClippedSums(info, params, None, None);
    var elapsed := slot - info.startSlot - params.duration - params.gracePeriod;
    if 0 < elapsed < params.penaltyPeriod {
      DecayBounds(params, info.securityDeposit, elapsed, elapsed);
    }
  }

  /** The two implementations return the same pair, with no additional grace, at every slot
      (before the start included), except exactly at the last slot of a cut penalty period
      when part of a non-zero deposit was still to decay. */
  lemma SdkAgreesWithProgram(params: AuctionParameters, info: AuctionInfo, slot: u64)
    requires ValidParameters(params)
    ensures var out := ComputeDepositPenalty(params, info, slot, None);
            SdkComputeDepositPenalty(params, info, slot) == (out.penalty, out.userReward)
            <==>
            !(PenaltyEndIsCut(params, info) && slot == U64_MAX
              && info.securityDeposit != 0 && params.initialPenaltyBps != FEE_PRECISION_MAX)
  {
    hide ComputeDepositPenalty, SdkComputeDepositPenalty, Charged, UncutCharge, Share, PenaltyEndIsCut;
    PenaltyIsExactSplit(params, info, slot, None);
    SdkSplitsUncutCharge(params, info, slot);
    ChargeIsUncutIff(params, info, slot);
  }

  /** Such a slot: the auction starts 16 slots before the last one, its penalty period would end
      ten slots after. There the program takes the whole deposit, the SDK computes 55 % of it. */
  lemma SdkDiffersAtLastSlot()
    ensures
      var params := AuctionParameters(250_000, 100_000, 2, 4, 20, 50_000, 1_000_000, 5_000);
      var info := AuctionInfo(0, 0, U64_MAX - 16, 0, 10_000_000, 0);
      && ValidParameters(params)
      && ComputeDepositPenalty(params, info, U64_MAX, None) == DepositPenalty(7_500_000, 2_500_000)
      && SdkComputeDepositPenalty(params, info, U64_MAX) == (4_125_000, 1_375_000)
  {
    hide ComputeDepositPenalty;
    var params := AuctionParameters(250_000, 100_000, 2, 4, 20, 50_000, 1_000_000, 5_000);
    PenaltyIsExactSplit(params, AuctionInfo(0, 0, U64_MAX - 16, 0, 10_000_000, 0), U64_MAX, None);
  }

  /** In particular they agree whenever the penalty period ends at a representable slot. */
  lemma SdkAgreesWithoutOverflow(params: AuctionParameters, info: AuctionInfo, slot: u64)
    requires ValidParameters(params)
    requires info.startSlot + params.duration + params.gracePeriod + params.penaltyPeriod <= U64_MAX
    ensures var out := ComputeDepositPenalty(params, info, slot, None);
            SdkComputeDepositPenalty(params, info, slot) == (out.penalty, out.userReward)
  {
    SdkAgreesWithProgram(params, info, slot);
  }

  /** The SDK's offer delta is the smallest decrement the program accepts. */
  lemma SdkMinOfferDeltaIsTight(params: AuctionParameters, info: AuctionInfo, decrement: nat)
    requires ValidParameters(params) && decrement <= info.offerPrice
    ensures ImprovementAllowed(params, info, info.offerPrice - decrement)
            <==> SdkComputeMinOfferDelta(params, info.offerPrice) <= decrement
  {
    MinAllowedOfferBounds(params, info);
  }

  /** The notional deposits agree exactly while the SDK's fits into 64 bits. */
  lemma SdkNotionalDepositAgrees(params: AuctionParameters, amountIn: u64)
    requires ValidParameters(params)
    ensures SdkComputeNotionalSecurityDeposit(params, amountIn) == ComputeNotionalSecurityDeposit(params, amountIn)
            <==> SdkComputeNotionalSecurityDeposit(params, amountIn) <= U64_MAX
  {
    NotionalDepositIsExact(params, amountIn);
  }
}
