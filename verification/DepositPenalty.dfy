/** The on-chain penalty taken from the best offer's security deposit when an order is
    executed late, and the price steps of an auction. */
module DepositPenalties {
  import opened AuctionState
  import opened MachineInts
  import opened Wrappers

  datatype DepositPenalty = DepositPenalty(penalty: u64, userReward: u64)

  // ---------------------------------------------------------------- the program's functions

  function MulBpsUnsafe(amount: u64, bps: u32): u64 {
    CastU64(Div128(SatMul128(amount, bps), FEE_PRECISION_MAX))
  }

  function SplitUserPenaltyReward(params: AuctionParameters, amount: u64): DepositPenalty {
    var userReward := MulBpsUnsafe(amount, params.userPenaltyRewardBps);
    DepositPenalty(SatSub64(amount, userReward), userReward)
  }

  /** There is no precondition: a current slot strictly between the two boundaries already
      rules out a zero penalty period, so the division cannot fail. */
  function ComputeDepositPenalty(
    params: AuctionParameters, info: AuctionInfo, currentSlot: u64, additionalGracePeriod: Option<u64>
  ): DepositPenalty
  {
    var graceSlot := info.GracePeriodEndSlot(params, additionalGracePeriod);
    if currentSlot <= graceSlot then
      DepositPenalty(0, 0)
    else
      var deposit := info.securityDeposit;
      if currentSlot >= info.PenaltyPeriodEndSlot(params, additionalGracePeriod)
         || params.initialPenaltyBps == FEE_PRECISION_MAX
      then
        SplitUserPenaltyReward(params, deposit)
      else
        var basePenalty := MulBpsUnsafe(deposit, params.initialPenaltyBps);
        var scaled := Div128(
          SatMul128(SatSub64(deposit, basePenalty), SatSub64(currentSlot, graceSlot)),
          params.penaltyPeriod);
        SplitUserPenaltyReward(params, SatAdd64(basePenalty, CastU64(scaled)))
  }

  function ComputeMinAllowedOffer(params: AuctionParameters, info: AuctionInfo): u64 {
    SatSub64(info.offerPrice, MulBpsUnsafe(info.offerPrice, params.minOfferDeltaBps))
  }

  function ComputeNotionalSecurityDeposit(params: AuctionParameters, notional: u64): u64 {
    SatAdd64(params.securityDepositBase, MulBpsUnsafe(notional, params.securityDepositBps))
  }

  // ------------------------------------------------------------- exact integer counterparts

  ghost function Share(amount: int, bps: int): int {
    amount * bps / FEE_PRECISION_MAX
  }

  /** Base penalty plus the part of the rest that has decayed, both rounded down. */
  ghost function DecayedCharge(params: AuctionParameters, deposit: int, elapsed: int): int
    requires params.penaltyPeriod != 0
  {
    var base := Share(deposit, params.initialPenaltyBps);
    base + (deposit - base) * elapsed / params.penaltyPeriod
  }

  /** What a late execution costs in total, on unbounded integers. */
  ghost function Charged(params: AuctionParameters, info: AuctionInfo, slot: u64, g: Option<u64>): int {
    var graceSlot := info.GracePeriodEndSlot(params, g);
    if slot <= graceSlot then 0
    else if slot >= info.PenaltyPeriodEndSlot(params, g) then info.securityDeposit
    else DecayedCharge(params, info.securityDeposit, slot - graceSlot)
  }

  // ----------------------------------------------------------------------- rounding lemmas

  lemma ShareBounds(amount: nat, bps: nat)
    requires bps <= FEE_PRECISION_MAX
    ensures 0 <= Share(amount, bps) <= amount
    ensures Share(amount, bps) == amount <==> amount == 0 || bps == FEE_PRECISION_MAX
  {
    MulMono(0, bps, amount);
    MulMono(bps, FEE_PRECISION_MAX, amount);
    DivWindow(amount * bps, FEE_PRECISION_MAX);
    if bps < FEE_PRECISION_MAX && 0 < amount {
      MulMono(bps, FEE_PRECISION_MAX - 1, amount);
    }
  }

  /** Rounding down one share rounds the other up, and both still grow with the amount. */
  lemma SharesMonotone(a: nat, b: nat, bps: nat)
    requires a <= b && bps <= FEE_PRECISION_MAX
    ensures Share(a, bps) <= Share(b, bps)
    ensures a - Share(a, bps) <= b - Share(b, bps)
  {
    MulMono(a, b, bps);
    DivMono(a * bps, b * bps, FEE_PRECISION_MAX);
    DivWindow(a * bps, FEE_PRECISION_MAX);
    DivWindow(b * bps, FEE_PRECISION_MAX);
    assert b * bps == a * bps + (b - a) * bps;
    MulMono(bps, FEE_PRECISION_MAX, b - a);
  }

  lemma MulBpsIsExact(amount: u64, bps: u32)
    requires bps <= FEE_PRECISION_MAX
    ensures MulBpsUnsafe(amount, bps) == Share(amount, bps) <= amount
  {
    ShareBounds(amount, bps);
    MulMono(bps, FEE_PRECISION_MAX, amount);
  }

  lemma ScaledBounds(rest: nat, elapsed: nat, later: nat, period: nat)
    requires elapsed <= later <= period && 0 < period
    ensures 0 <= rest * elapsed / period <= rest * later / period <= rest
  {
    MulMono(0, elapsed, rest);
    MulMono(elapsed, later, rest);
    MulMono(later, period, rest);
    DivMono(0, rest * elapsed, period);
    DivMono(rest * elapsed, rest * later, period);
    DivUnique(rest * period, period, rest);
    DivMono(rest * later, rest * period, period);
  }

  lemma ScaledIsPart(rest: nat, elapsed: nat, period: nat)
    requires elapsed < period
    ensures rest * elapsed / period == rest <==> rest == 0
  {
    DivWindow(rest * elapsed, period);
    MulMono(elapsed, period - 1, rest);
    if rest == 0 {
      assert rest * elapsed == 0;
    } else {
      assert rest * elapsed < rest * period == period * rest;
      if rest * elapsed / period >= rest {
        MulMono(rest, rest * elapsed / period, period);
      }
    }
  }

  /** The decayed charge stays within the deposit, grows with elapsed slots, and reaches
      the deposit early only when nothing was left to decay. */
  lemma DecayBounds(params: AuctionParameters, deposit: u64, elapsed: nat, later: nat)
    requires ValidParameters(params)
    requires elapsed <= later <= params.penaltyPeriod
    ensures 0 <= DecayedCharge(params, deposit, elapsed) <= DecayedCharge(params, deposit, later) <= deposit
    ensures elapsed < params.penaltyPeriod ==>
      (DecayedCharge(params, deposit, elapsed) == deposit
       <==> deposit == 0 || params.initialPenaltyBps == FEE_PRECISION_MAX)
  {
    hide Share;
    var period := params.penaltyPeriod;
    ShareBounds(deposit, params.initialPenaltyBps);
    var rest := deposit - Share(deposit, params.initialPenaltyBps);
    ScaledBounds(rest, elapsed, later, period);
    if elapsed < period {
      ScaledIsPart(rest, elapsed, period);
    }
  }

  // ---------------------------------------------------------------------------- main results

  /** For accepted parameters no cast truncates and no saturating operation clips: the
      program computes the exact charge and splits it without loss. */
  lemma PenaltyIsExactSplit(params: AuctionParameters, info: AuctionInfo, slot: u64, g: Option<u64>)
    requires ValidParameters(params)
    ensures 0 <= Charged(params, info, slot, g) <= info.securityDeposit
    ensures var c, out := Charged(params, info, slot, g), ComputeDepositPenalty(params, info, slot, g);
            && out.userReward == Share(c, params.userPenaltyRewardBps)
            && out.penalty + out.userReward == c
  {
    var deposit := info.securityDeposit;
    var graceSlot := info.GracePeriodEndSlot(params, g);
    if slot <= graceSlot {
      assert Share(0, params.userPenaltyRewardBps) == 0;
    } else if slot >= info.PenaltyPeriodEndSlot(params, g) {
      MulBpsIsExact(deposit, params.userPenaltyRewardBps);
    } else {
      var elapsed := slot - graceSlot;
      DecayBounds(params, deposit, elapsed, elapsed);
      var c := DecayedCharge(params, deposit, elapsed);
      MulBpsIsExact(deposit, params.initialPenaltyBps);
      MulBpsIsExact(c, params.userPenaltyRewardBps);
      if params.initialPenaltyBps != FEE_PRECISION_MAX {
        ScaledIsExact(params, deposit, elapsed);
      }
    }
  }

  /** The u128 product and the u64 cast of the decay branch lose nothing. */
  lemma ScaledIsExact(params: AuctionParameters, deposit: u64, elapsed: u64)
    requires ValidParameters(params) && elapsed < params.penaltyPeriod
    ensures var base := MulBpsUnsafe(deposit, params.initialPenaltyBps);
            var scaled := CastU64(Div128(SatMul128(SatSub64(deposit, base), elapsed), params.penaltyPeriod));
            SatAdd64(base, scaled) == base + scaled == DecayedCharge(params, deposit, elapsed)
  {
    MulBpsIsExact(deposit, params.initialPenaltyBps);
    DecayBounds(params, deposit, elapsed, elapsed);
    var rest := deposit - Share(deposit, params.initialPenaltyBps);
    MulMono(0, elapsed, rest);
    MulMono(elapsed, U16_MAX, rest);
    DivBounds(rest * elapsed, params.penaltyPeriod);
  }

  /** The deposit asked for an order: exact until it reaches the largest amount, and never zero. */
  lemma NotionalDepositIsExact(params: AuctionParameters, notional: u64)
    requires ValidParameters(params)
    ensures var deposit, exact := ComputeNotionalSecurityDeposit(params, notional),
                                  params.securityDepositBase + Share(notional, params.securityDepositBps);
            0 < deposit && (if exact <= U64_MAX then deposit == exact else deposit == U64_MAX)
  {
    MulBpsIsExact(notional, params.securityDepositBps);
  }

  lemma ChargeMonotone(
    params: AuctionParameters, info: AuctionInfo,
    slot: u64, g: Option<u64>, laterSlot: u64, shorter: Option<u64>)
    requires ValidParameters(params)
    requires slot <= laterSlot && shorter.GetOr(0) <= g.GetOr(0)
    ensures Charged(params, info, slot, g) <= Charged(params, info, laterSlot, shorter)
  {
    PenaltyIsExactSplit(params, info, slot, g);
    PenaltyIsExactSplit(params, info, laterSlot, shorter);
    BoundariesAreClippedSums(info, params, shorter, g);
    var graceSlot := info.GracePeriodEndSlot(params, g);
    if graceSlot < slot && laterSlot < info.PenaltyPeriodEndSlot(params, shorter) {
      DecayBounds(params, info.securityDeposit, slot - graceSlot,
                  laterSlot - info.GracePeriodEndSlot(params, shorter));
    }
  }

  /** Waiting longer never lowers either share of the penalty, and neither does a shorter
      additional grace period, at any slots and across all branches. */
  lemma PenaltySharesMonotone(
    params: AuctionParameters, info: AuctionInfo,
    slot: u64, g: Option<u64>, laterSlot: u64, shorter: Option<u64>)
    requires ValidParameters(params)
    requires slot <= laterSlot && shorter.GetOr(0) <= g.GetOr(0)
    ensures var early, late := ComputeDepositPenalty(params, info, slot, g),
                               ComputeDepositPenalty(params, info, laterSlot, shorter);
            early.penalty <= late.penalty && early.userReward <= late.userReward
  {
    PenaltyIsExactSplit(params, info, slot, g);
    PenaltyIsExactSplit(params, info, laterSlot, shorter);
    ChargeMonotone(params, info, slot, g, laterSlot, shorter);
    SharesMonotone(Charged(params, info, slot, g), Charged(params, info, laterSlot, shorter),
                   params.userPenaltyRewardBps);
  }

  /** The ends of the curve: nothing up to the grace slot (so nothing within the auction),
      the whole deposit from the penalty end on. */
  lemma PenaltyEndpoints(params: AuctionParameters, info: AuctionInfo, slot: u64, g: Option<u64>)
    requires ValidParameters(params)
    ensures info.WithinAuctionDuration(params, slot) || slot <= info.GracePeriodEndSlot(params, g) ==>
      ComputeDepositPenalty(params, info, slot, g) == DepositPenalty(0, 0)
    ensures info.GracePeriodEndSlot(params, g) < slot && info.PenaltyPeriodEndSlot(params, g) <= slot ==>
      var out := ComputeDepositPenalty(params, info, slot, g);
      out.penalty + out.userReward == info.securityDeposit
  {
    PenaltyIsExactSplit(params, info, slot, g);
  }

  /** The base penalty before rounding. */
  ghost function UnroundedBase(params: AuctionParameters, deposit: int): real {
    (deposit * params.initialPenaltyBps) as real / FEE_PRECISION_MAX as real
  }

  /** The straight line from `base` at the grace slot to the deposit one period later. */
  ghost function DecayLine(base: real, deposit: real, elapsed: real, period: real): real
    requires period != 0.0
  {
    base + Fraction(deposit - base, elapsed, period)
  }

  ghost function Fraction(x: real, part: real, whole: real): real
    requires whole != 0.0
  {
    Ratio(x * part, whole)
  }

  ghost function Ratio(x: real, y: real): real
    requires y != 0.0
  {
    x / y
  }

  /** A sum of two floors, one nested in the other's argument, is within 2 of the line. */
  lemma DecayFollowsLine(params: AuctionParameters, info: AuctionInfo, slot: u64, g: Option<u64>)
    requires ValidParameters(params)
    requires info.GracePeriodEndSlot(params, g) < slot < info.PenaltyPeriodEndSlot(params, g)
    ensures var out := ComputeDepositPenalty(params, info, slot, g);
            var line := DecayLine(UnroundedBase(params, info.securityDeposit), info.securityDeposit as real,
                                  (slot - info.GracePeriodEndSlot(params, g)) as real, params.penaltyPeriod as real);
            line - 2.0 < (out.penalty + out.userReward) as real <= line
  {
    PenaltyIsExactSplit(params, info, slot, g);
    DecayedChargeNearLine(params, info.securityDeposit, slot - info.GracePeriodEndSlot(params, g));
  }

  lemma DecayedChargeNearLine(params: AuctionParameters, deposit: u64, elapsed: nat)
    requires params.penaltyPeriod != 0 && 0 < elapsed < params.penaltyPeriod
    ensures var line := DecayLine(UnroundedBase(params, deposit), deposit as real,
                                  elapsed as real, params.penaltyPeriod as real);
            line - 2.0 < DecayedCharge(params, deposit, elapsed) as real <= line
  {
    QuotientAsReal(deposit * params.initialPenaltyBps, FEE_PRECISION_MAX);
    RestNearLine(deposit, Share(deposit, params.initialPenaltyBps), UnroundedBase(params, deposit),
                 elapsed, params.penaltyPeriod);
  }

  lemma RestNearLine(deposit: int, base: int, exact: real, elapsed: nat, period: nat)
    requires 0 < elapsed < period
    requires base as real <= exact < base as real + 1.0
    ensures var line := DecayLine(exact, deposit as real, elapsed as real, period as real);
            line - 2.0 < (base + (deposit - base) * elapsed / period) as real <= line
  {
    hide Fraction;
    var scaled := (deposit - base) * elapsed / period;
    ScaledAsReal(deposit - base, elapsed, period);
    assert (deposit - base) as real == deposit as real - base as real;
    FloorsWithinLine(deposit as real, exact, base as real, elapsed as real, period as real, scaled as real);
    assert (base + scaled) as real == base as real + scaled as real;
  }

  lemma {:induction false} ProductAsReal(a: int, b: nat)
    ensures (a * b) as real == a as real * b as real
  {
    if b > 0 {
      ProductAsReal(a, b - 1);
      assert a * b == a * (b - 1) + a;
    }
  }

  lemma QuotientAsReal(a: int, b: nat)
    requires 0 < b
    ensures (a / b) as real <= Ratio(a as real, b as real) < (a / b) as real + 1.0
  {
    DivWindow(a, b);
    ProductAsReal(a / b, b);
    var x, y, q := a as real, b as real, (a / b) as real;
    assert q * y <= x < q * y + y;
    RealQuotient(x, y, q);
  }

  lemma ScaledAsReal(a: int, b: nat, c: nat)
    requires 0 < c
    ensures (a * b / c) as real <= Fraction(a as real, b as real, c as real) < (a * b / c) as real + 1.0
  {
    hide Ratio, Fraction;
    ProductAsReal(a, b);
    QuotientAsReal(a * b, c);
    FractionIsRatio(a as real, b as real, c as real, (a * b) as real);
  }

  lemma FractionIsRatio(x: real, part: real, whole: real, product: real)
    requires whole != 0.0 && product == x * part
    ensures Fraction(x, part, whole) == Ratio(product, whole)
  {
    hide Ratio;
  }

  lemma RealQuotient(x: real, y: real, q: real)
    requires 0.0 < y && q * y <= x < q * y + y
    ensures q <= x / y < q + 1.0
  {
    var z := x / y;
    assert z * y == x;
    if z < q {
      RealProduct(q - z, y);
    } else if z >= q + 1.0 {
      RealProduct(z - (q + 1.0), y);
    }
  }

  lemma RealProduct(x: real, y: real)
    requires 0.0 <= x && 0.0 <= y
    ensures 0.0 <= x * y
  {
  }

  lemma FloorsWithinLine(d: real, exact: real, base: real, e: real, p: real, scaled: real)
    requires 0.0 < e < p
    requires base <= exact < base + 1.0
    requires scaled <= Fraction(d - base, e, p) < scaled + 1.0
    ensures DecayLine(exact, d, e, p) - 2.0 < base + scaled <= DecayLine(exact, d, e, p)
  {
    hide Fraction;
    RealQuotient(e, p, 0.0);
    FractionIs(d - base, e, p);
    FractionIs(d - exact, e, p);
    LinesAreClose(d, exact, base, e / p);
  }

  lemma FractionIs(x: real, part: real, whole: real)
    requires whole != 0.0
    ensures Fraction(x, part, whole) == x * (part / whole)
  {
  }

  /** Rounding down where a line starts lowers it by less than one unit before it ends. */
  lemma LinesAreClose(d: real, exact: real, base: real, f: real)
    requires 0.0 <= f <= 1.0 && base <= exact < base + 1.0
    ensures exact + (d - exact) * f - 1.0 < base + (d - base) * f <= exact + (d - exact) * f
  {
    var drift := exact - base;
    assert exact + (d - exact) * f == base + (d - base) * f + drift * (1.0 - f);
    RealProduct(drift, 1.0 - f);
    RealProduct(drift, f);
  }
}
