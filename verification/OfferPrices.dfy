/** How fast the price of an auction can fall: the bound the program puts on one
    improvement, iterated over any number of them. */
module OfferPrices {
  import opened AuctionState
  import opened DepositPenalties
  import opened MachineInts

  ghost function Pow(b: nat, n: nat): nat {
    if n == 0 then 1 else b * Pow(b, n - 1)
  }

  /** The price from which `n` improvements, each as small as allowed, start to be refused. */
  ghost function IteratedMinAllowed(params: AuctionParameters, info: AuctionInfo, n: nat): u64 {
    if n == 0 then info.offerPrice
    else
      var previous := IteratedMinAllowed(params, info, n - 1);
      ComputeMinAllowedOffer(params, info.(offerPrice := previous))
  }

  /** One step removes the delta rounded down: never below zero, and at least `1 - delta` remains. */
  lemma MinAllowedOfferBounds(params: AuctionParameters, info: AuctionInfo)
    requires ValidParameters(params)
    ensures var p, delta := info.offerPrice, params.minOfferDeltaBps;
            var next := ComputeMinAllowedOffer(params, info);
            && next == p - Share(p, delta) && next <= p
            && p * (FEE_PRECISION_MAX - delta) <= next * FEE_PRECISION_MAX
            && (next - 1) * FEE_PRECISION_MAX < p * (FEE_PRECISION_MAX - delta)
  {
    MulBpsIsExact(info.offerPrice, params.minOfferDeltaBps);
    DivWindow(info.offerPrice * params.minOfferDeltaBps, FEE_PRECISION_MAX);
  }

  lemma PowStep(x: nat, y: nat, b: nat, c: nat, n: nat, start: nat)
    requires 0 < n
    ensures x * b <= y * c && y * Pow(b, n - 1) <= start * Pow(c, n - 1) ==>
      x * Pow(b, n) <= start * Pow(c, n)
    ensures y * c <= x * b && start * Pow(c, n - 1) <= y * Pow(b, n - 1) ==>
      start * Pow(c, n) <= x * Pow(b, n)
  {
    var s, t := Pow(b, n - 1), Pow(c, n - 1);
    assert x * Pow(b, n) == (x * b) * s && start * Pow(c, n) == (start * t) * c;
    assert (y * c) * s == (y * s) * c;
    if x * b <= y * c && y * s <= start * t {
      MulMono(x * b, y * c, s);
      MulMono(y * s, start * t, c);
    }
    if y * c <= x * b && start * t <= y * s {
      MulMono(y * c, x * b, s);
      MulMono(start * t, y * s, c);
    }
  }

  /** The iterated bound never rises and loses at most a factor `1 - delta` a step. */
  lemma {:induction false} IteratedMinAllowedIsGeometric(params: AuctionParameters, info: AuctionInfo, n: nat)
    requires ValidParameters(params)
    ensures 0 < n ==> IteratedMinAllowed(params, info, n) <= IteratedMinAllowed(params, info, n - 1)
    ensures info.offerPrice * Pow(FEE_PRECISION_MAX - params.minOfferDeltaBps, n)
            <= IteratedMinAllowed(params, info, n) * Pow(FEE_PRECISION_MAX, n)
  {
    if n > 0 {
      IteratedMinAllowedIsGeometric(params, info, n - 1);
      var previous := IteratedMinAllowed(params, info, n - 1);
      MinAllowedOfferBounds(params, info.(offerPrice := previous));
      PowStep(IteratedMinAllowed(params, info, n), previous,
              FEE_PRECISION_MAX, FEE_PRECISION_MAX - params.minOfferDeltaBps, n, info.offerPrice);
    }
  }

  /** The check an improvement must pass. */
  predicate ImprovementAllowed(params: AuctionParameters, info: AuctionInfo, offerPrice: u64) {
    offerPrice < ComputeMinAllowedOffer(params, info)
  }

  /** An allowed improvement is strictly lower and gives up at least the unrounded delta. */
  lemma ImprovementLowersPrice(params: AuctionParameters, info: AuctionInfo, offerPrice: u64)
    requires ValidParameters(params) && ImprovementAllowed(params, info, offerPrice)
    ensures offerPrice < info.offerPrice
    ensures offerPrice * FEE_PRECISION_MAX <= info.offerPrice * (FEE_PRECISION_MAX - params.minOfferDeltaBps)
  {
    MinAllowedOfferBounds(params, info);
  }
}
