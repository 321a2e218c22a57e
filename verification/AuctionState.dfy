/** Auction parameters and auction info as stored on chain, with the slot boundaries
    computed from them by saturating addition. */
module AuctionState {
  import opened MachineInts
  import opened Wrappers

  /** All shares are out of this many units. */
  const FEE_PRECISION_MAX: int := 1_000_000

  type Pubkey = nat

  datatype AuctionParameters = AuctionParameters(
    userPenaltyRewardBps: u32,
    initialPenaltyBps: u32,
    duration: u16,
    gracePeriod: u16,
    penaltyPeriod: u16,
    minOfferDeltaBps: u32,
    securityDepositBase: u64,
    securityDepositBps: u32)

  datatype ParameterError =
    | ZeroDuration
    | ZeroGracePeriod
    | ZeroPenaltyPeriod
    | UserPenaltyRewardBpsTooLarge
    | InitialPenaltyBpsTooLarge
    | MinOfferDeltaBpsTooLarge
    | ZeroSecurityDepositBase
    | SecurityDepositBpsTooLarge

  function RequireValidParameters(params: AuctionParameters): Result<(), ParameterError> {
    if params.duration == 0 then Err(ZeroDuration)
    else if params.gracePeriod == 0 then Err(ZeroGracePeriod)
    else if params.penaltyPeriod == 0 then Err(ZeroPenaltyPeriod)
    else if params.userPenaltyRewardBps > FEE_PRECISION_MAX then Err(UserPenaltyRewardBpsTooLarge)
    else if params.initialPenaltyBps > FEE_PRECISION_MAX then Err(InitialPenaltyBpsTooLarge)
    else if params.minOfferDeltaBps > FEE_PRECISION_MAX then Err(MinOfferDeltaBpsTooLarge)
    else if params.securityDepositBase == 0 then Err(ZeroSecurityDepositBase)
    else if params.securityDepositBps > FEE_PRECISION_MAX then Err(SecurityDepositBpsTooLarge)
    else Ok(())
  }

  predicate ValidParameters(params: AuctionParameters) {
    RequireValidParameters(params).Ok?
  }

  /** What each error complains about. */
  ghost predicate Violates(params: AuctionParameters, error: ParameterError) {
    match error
    case ZeroDuration => params.duration == 0
    case ZeroGracePeriod => params.gracePeriod == 0
    case ZeroPenaltyPeriod => params.penaltyPeriod == 0
    case UserPenaltyRewardBpsTooLarge => 1_000_000 < params.userPenaltyRewardBps
    case InitialPenaltyBpsTooLarge => 1_000_000 < params.initialPenaltyBps
    case MinOfferDeltaBpsTooLarge => 1_000_000 < params.minOfferDeltaBps
    case ZeroSecurityDepositBase => params.securityDepositBase == 0
    case SecurityDepositBpsTooLarge => 1_000_000 < params.securityDepositBps
  }

  /** Parameters are accepted exactly when nothing is wrong with them: the periods and the base
      deposit are positive and no share exceeds the whole. An error names what is wrong. */
  lemma AcceptedIffNothingViolated(params: AuctionParameters)
    ensures ValidParameters(params) <==> forall error :: !Violates(params, error)
    ensures ValidParameters(params)
      <==>
      && 0 < params.duration && 0 < params.gracePeriod && 0 < params.penaltyPeriod && 0 < params.securityDepositBase
      && params.userPenaltyRewardBps <= 1_000_000 && params.initialPenaltyBps <= 1_000_000
      && params.minOfferDeltaBps <= 1_000_000 && params.securityDepositBps <= 1_000_000
    ensures RequireValidParameters(params).Err? ==> Violates(params, RequireValidParameters(params).error)
  {
    if !ValidParameters(params) {
      assert Violates(params, RequireValidParameters(params).error);
    }
    assert Violates(params, ZeroDuration) <==> params.duration == 0;
    assert Violates(params, ZeroGracePeriod) <==> params.gracePeriod == 0;
    assert Violates(params, ZeroPenaltyPeriod) <==> params.penaltyPeriod == 0;
    assert Violates(params, ZeroSecurityDepositBase) <==> params.securityDepositBase == 0;
  }

  datatype AuctionInfo = AuctionInfo(
    bestOfferToken: Pubkey,
    initialOfferToken: Pubkey,
    startSlot: u64,
    amountIn: u64,
    securityDeposit: u64,
    offerPrice: u64)
  {
    function AuctionEndSlot(params: AuctionParameters): u64 {
      SatAdd64(startSlot, params.duration)
    }

    function GracePeriodEndSlot(params: AuctionParameters, additionalGracePeriod: Option<u64>): u64 {
      SatAdd64(SatAdd64(AuctionEndSlot(params), params.gracePeriod), additionalGracePeriod.GetOr(0))
    }

    function PenaltyPeriodEndSlot(params: AuctionParameters, additionalGracePeriod: Option<u64>): u64 {
      SatAdd64(GracePeriodEndSlot(params, additionalGracePeriod), params.penaltyPeriod)
    }

    function TotalDeposit(): u64 {
      SatAdd64(amountIn, securityDeposit)
    }

    predicate WithinAuctionDuration(params: AuctionParameters, clockSlot: u64) {
      clockSlot <= AuctionEndSlot(params)
    }
  }

  /** Chained saturating additions clip only once: each boundary is the exact sum cut at
      the largest slot, so the three stay in order and a longer grace only moves them up.
      An auction's duration includes its last slot. With accepted parameters every phase lasts
      at least one slot exactly while the grace period ends before the largest one. */
  lemma BoundariesAreClippedSums(info: AuctionInfo, params: AuctionParameters, g: Option<u64>, longer: Option<u64>)
    requires g.GetOr(0) <= longer.GetOr(0)
    ensures info.startSlot <= info.AuctionEndSlot(params)
                           <= info.GracePeriodEndSlot(params, g)
                           <= info.PenaltyPeriodEndSlot(params, g)
    ensures var end := info.startSlot + params.duration;
            info.AuctionEndSlot(params) == (if end <= U64_MAX then end else U64_MAX)
    ensures forall slot: u64 ::
      info.WithinAuctionDuration(params, slot) <==> slot <= info.startSlot + params.duration
    ensures var exact := info.startSlot + params.duration + params.gracePeriod + g.GetOr(0);
            && info.GracePeriodEndSlot(params, g) == (if exact <= U64_MAX then exact else U64_MAX)
            && info.PenaltyPeriodEndSlot(params, g)
               == (if exact + params.penaltyPeriod <= U64_MAX then exact + params.penaltyPeriod else U64_MAX)
    ensures ValidParameters(params) ==>
      (info.startSlot < info.AuctionEndSlot(params)
                      < info.GracePeriodEndSlot(params, g)
                      < info.PenaltyPeriodEndSlot(params, g)
       <==> info.startSlot + params.duration + params.gracePeriod + g.GetOr(0) < U64_MAX)
    ensures info.GracePeriodEndSlot(params, g) <= info.GracePeriodEndSlot(params, longer)
    ensures info.PenaltyPeriodEndSlot(params, g) <= info.PenaltyPeriodEndSlot(params, longer)
  {
  }
}
