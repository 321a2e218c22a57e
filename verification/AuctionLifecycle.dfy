/** One order's life in the matching engine: the auction account, the prepared order
    response and the USDC token accounts its instructions move money between. Every
    instruction is atomic, as a transaction is: when it fails, nothing changes. */
module AuctionLifecycle {
  import opened AuctionState
  import opened DepositPenalties
  import opened MachineInts
  import opened OfferPrices
  import opened Wrappers

  const EXECUTE_FAST_ORDER_LOCAL_ADDITIONAL_GRACE_PERIOD: u64 := 5

  /** Two hours, in seconds. */
  const VAA_AUCTION_EXPIRATION_TIME: int := 2 * 60 * 60

  /** The open, unfrozen USDC token accounts and their balances. */
  type Tokens = map<Pubkey, nat>

  /** A deadline of zero is none. */
  datatype FastOrder = FastOrder(
    amountIn: u64, maxFee: u64, initAuctionFee: u64, targetChain: u16, deadline: u32)

  /** What is read from the envelope the order arrived in. */
  datatype Envelope = Envelope(timestamp: u32, emitterChain: u16, emitterAddress: nat)

  datatype MessageProtocol = Disabled | Local | Cctp

  datatype RouterEndpoint = RouterEndpoint(chain: u16, address: nat, protocol: MessageProtocol)

  /** What stays fixed while the order is handled. `custody` and `preparedCustody` are the
      two token accounts the program owns for it; `baseFee` is read from the slow message;
      `targetProtocol` is the target endpoint's when the auction starts. */
  datatype Market = Market(
    params: AuctionParameters, order: FastOrder, envelope: Envelope, baseFee: u64,
    targetProtocol: MessageProtocol, custody: Pubkey, preparedCustody: Pubkey)

  /** What the first offer finds on chain besides the token accounts. */
  datatype Setting = Setting(
    slot: u64, paused: bool, configIsCurrent: bool,
    fromEndpoint: RouterEndpoint, toEndpoint: RouterEndpoint)

  datatype AuctionStatus =
    | NotStarted
    | Active
    | Completed(slot: u64, executePenalty: Option<u64>)
    | Settled(fee: u64, totalPenalty: Option<u64>)

  datatype Auction = Auction(status: AuctionStatus, info: Option<AuctionInfo>)

  /** The response account is closed at settlement, and its inbound transfer cannot be
      redeemed a second time. */
  datatype OrderResponse = Unprepared | Prepared(baseFeeToken: Pubkey) | Consumed

  /** `delivered` is what was sent on to the user, once anything was; `sequenceReserved` says
      whether the account with a local fill's sequence number is open; `clock` is the time. */
  datatype World = World(
    tokens: Tokens, auction: Option<Auction>, response: OrderResponse, delivered: Option<nat>,
    sequenceReserved: bool, clock: int)

  /** A token transfer: both accounts must be open and the source must hold the amount. */
  function Transfer(tokens: Tokens, source: Pubkey, destination: Pubkey, amount: nat): Option<Tokens> {
    if source !in tokens || destination !in tokens || tokens[source] < amount then None
    else
      var debited := tokens[source := tokens[source] - amount];
      Some(debited[destination := debited[destination] + amount])
  }

  function SatSub(a: nat, b: nat): nat {
    if a < b then 0 else a - b
  }

  function SecurityDeposit(m: Market): u64 {
    SatAdd64(m.order.maxFee, ComputeNotionalSecurityDeposit(m.params, m.order.amountIn))
  }

  /** From then on no auction can start, and a settled one can be closed. */
  function Expiration(m: Market): int {
    m.envelope.timestamp + VAA_AUCTION_EXPIRATION_TIME
  }

  function AdditionalGracePeriod(m: Market): Option<u64> {
    if m.targetProtocol.Local? then Some(EXECUTE_FAST_ORDER_LOCAL_ADDITIONAL_GRACE_PERIOD) else None
  }

  // ------------------------------------------------------------- what each instruction does

  ghost predicate ProgramOwned(m: Market, key: Pubkey) {
    key == m.custody || key == m.preparedCustody
  }

  /** Adds to an account if it is open; a payment of nothing needs no account. */
  ghost function Credit(tokens: Tokens, key: Pubkey, amount: nat): Tokens {
    if key in tokens then tokens[key := tokens[key] + amount] else tokens
  }

  /** An auction can start while the program is not paused, between two different live
      endpoints that match the order, before its deadline and before its envelope is too old. */
  ghost predicate AuctionCanStart(m: Market, clock: int, at: Setting) {
    && !at.paused && at.configIsCurrent
    && at.fromEndpoint.protocol != Disabled && at.toEndpoint.protocol == m.targetProtocol != Disabled
    && m.envelope.emitterChain == at.fromEndpoint.chain != at.toEndpoint.chain == m.order.targetChain
    && at.fromEndpoint.address == m.envelope.emitterAddress
    && (m.order.deadline == 0 || clock < m.order.deadline)
    && clock < Expiration(m)
  }

  ghost function PlaceInitialOffer(
    m: Market, w: World, offerToken: Pubkey, offerPrice: u64, at: Setting): Option<World>
  {
    var total := m.order.amountIn + SecurityDeposit(m);
    if || !AuctionCanStart(m, w.clock, at)
       || w.auction.Some? || m.custody in w.tokens || ProgramOwned(m, offerToken)
       || offerPrice > m.order.maxFee || total > U64_MAX
       || offerToken !in w.tokens || w.tokens[offerToken] < total
    then None
    else Some(w.(
      tokens := w.tokens[offerToken := w.tokens[offerToken] - total][m.custody := total],
      auction := Some(Auction(Active, Some(AuctionInfo(
        offerToken, offerToken, at.slot, m.order.amountIn, SecurityDeposit(m), offerPrice))))))
  }

  ghost predicate IsActive(w: World) {
    w.auction.Some? && w.auction.value.status == Active && w.auction.value.info.Some?
  }

  ghost function Info(w: World): AuctionInfo
    requires IsActive(w)
  {
    w.auction.value.info.value
  }

  /** The new bidder replaces the old one's stake, which goes back to him if he can receive it. */
  ghost function ImproveOffer(
    m: Market, w: World, offerToken: Pubkey, offerPrice: u64, slot: u64): Option<World>
  {
    if !IsActive(w) || m.custody !in w.tokens || ProgramOwned(m, offerToken) || offerToken !in w.tokens then None
    else
      var info := Info(w);
      var stake := info.TotalDeposit();
      if !info.WithinAuctionDuration(m.params, slot) || !ImprovementAllowed(m.params, info, offerPrice) then None
      else
        var auction := Some(Auction(Active, Some(info.(bestOfferToken := offerToken, offerPrice := offerPrice))));
        if offerToken == info.bestOfferToken then Some(w.(auction := auction))
        else if w.tokens[offerToken] < stake then None
        else
          var paid := w.tokens[offerToken := w.tokens[offerToken] - stake];
          if info.bestOfferToken !in w.tokens then
            Some(w.(auction := auction, tokens := Credit(paid, m.custody, stake)))
          else if w.tokens[m.custody] < stake then None
          else Some(w.(auction := auction, tokens := Credit(paid, info.bestOfferToken, stake)))
  }

  /** How an execution divides the custody account. */
  datatype Shares = Shares(user: nat, initiator: nat, bestOffer: nat, executor: int)

  ghost function PenaltyAt(m: Market, info: AuctionInfo, slot: u64): DepositPenalty {
    ComputeDepositPenalty(m.params, info, slot, AdditionalGracePeriod(m))
  }

  ghost function UserAmount(m: Market, info: AuctionInfo, out: DepositPenalty): u64 {
    SatAdd64(SatSub64(SatSub64(info.amountIn, info.offerPrice), m.order.initAuctionFee), out.userReward)
  }

  /** What the best offer is owed back, or nothing when the sum leaves 64 bits. */
  ghost function OwedToBestOffer(
    m: Market, info: AuctionInfo, tokens: Tokens, executor: Pubkey, out: DepositPenalty): Option<u64>
  {
    var refund := SatSub64(SatAdd64(info.offerPrice, info.securityDeposit), out.userReward);
    var afterPenalty := if executor != info.bestOfferToken then SatSub64(refund, out.penalty) else refund;
    if info.initialOfferToken in tokens && info.initialOfferToken == info.bestOfferToken then
      if afterPenalty + m.order.initAuctionFee > U64_MAX then None
      else Some(afterPenalty + m.order.initAuctionFee)
    else Some(afterPenalty)
  }

  /** The executor takes whatever the user, the initiator and the best offer leave. */
  ghost function ExecutionShares(
    m: Market, info: AuctionInfo, tokens: Tokens, executor: Pubkey, out: DepositPenalty): Shares
    requires OwedToBestOffer(m, info, tokens, executor, out).Some? && m.custody in tokens
  {
    var user := UserAmount(m, info, out);
    var initiator :=
      if info.initialOfferToken in tokens && info.initialOfferToken != info.bestOfferToken
      then m.order.initAuctionFee else 0;
    var bestOffer :=
      if executor != info.bestOfferToken && info.bestOfferToken in tokens
      then OwedToBestOffer(m, info, tokens, executor, out).value else 0;
    Shares(user, initiator, bestOffer, tokens[m.custody] - user - initiator - bestOffer)
  }

  /** The accounts once custody is paid out and closed; possible exactly when the shares fit
      and nothing stays behind. */
  ghost function PayExecution(
    m: Market, info: AuctionInfo, tokens: Tokens, executor: Pubkey, out: DepositPenalty): Option<Tokens>
    requires m.custody in tokens
  {
    if OwedToBestOffer(m, info, tokens, executor, out).None? then None
    else
      var s := ExecutionShares(m, info, tokens, executor, out);
      if s.executor < 0 || (executor == m.custody && s.executor != 0) then None
      else
        var initiatorPaid := Credit(tokens, info.initialOfferToken, s.initiator);
        var bestOfferPaid := Credit(initiatorPaid, info.bestOfferToken, s.bestOffer);
        Some(Credit(bestOfferPaid, executor, s.executor) - {m.custody})
  }

  /** Filling an order on the same chain uses up a sequence number reserved before. */
  ghost predicate FillIsReady(m: Market, w: World) {
    m.targetProtocol.Local? ==> w.sequenceReserved
  }

  ghost function ExecuteFastOrder(m: Market, w: World, executor: Pubkey, slot: u64): Option<World> {
    if !IsActive(w) || m.custody !in w.tokens || executor !in w.tokens || !FillIsReady(m, w) then None
    else
      var info := Info(w);
      var out := PenaltyAt(m, info, slot);
      var paid := PayExecution(m, info, w.tokens, executor, out);
      if info.WithinAuctionDuration(m.params, slot) || paid.None? then None
      else Some(w.(
        tokens := paid.value,
        auction := Some(Auction(
          Completed(slot, if out.penalty > 0 then Some(out.penalty) else None), Some(info))),
        delivered := Some(UserAmount(m, info, out)),
        sequenceReserved := false))
  }

  /** After its auction's duration a local order can have its sequence number reserved. */
  ghost function ReserveForAuction(m: Market, w: World, slot: u64): Option<World> {
    if !m.targetProtocol.Local? || w.sequenceReserved || !IsActive(w) then None
    else if Info(w).WithinAuctionDuration(m.params, slot) then None
    else Some(w.(sequenceReserved := true))
  }

  /** Without an auction it can be once the slow transfer is here; then none can start any more. */
  ghost function ReserveWithoutAuction(m: Market, w: World): Option<World> {
    if !m.targetProtocol.Local? || w.sequenceReserved || w.auction.Some? || !w.response.Prepared? then None
    else Some(w.(auction := Some(Auction(NotStarted, None)), sequenceReserved := true))
  }

  /** Redeems the slow transfer into its own custody account; once it is there, doing so
      again changes nothing. */
  ghost function PrepareOrderResponse(m: Market, w: World, baseFeeToken: Pubkey): Option<World> {
    if w.response.Consumed? || baseFeeToken !in w.tokens || baseFeeToken == m.preparedCustody then None
    else if w.response.Prepared? then Some(w)
    else Some(w.(
      tokens := w.tokens[m.preparedCustody := m.order.amountIn],
      response := Prepared(baseFeeToken)))
  }

  /** A penalised execution leaves the base fee to whoever prepared the response, if that
      account and the best offer's are open and differ; otherwise one of them takes all. */
  ghost function BaseFeePayout(m: Market, w: World, executePenalty: Option<u64>, bestOffer: Pubkey): Option<nat>
    requires w.response.Prepared? && m.preparedCustody in w.tokens
  {
    var baseFeeToken := w.response.baseFeeToken;
    if executePenalty.None? then if bestOffer in w.tokens then Some(0) else None
    else if bestOffer !in w.tokens then
      if baseFeeToken in w.tokens then Some(w.tokens[m.preparedCustody]) else None
    else if baseFeeToken in w.tokens && baseFeeToken != bestOffer then Some(m.baseFee)
    else Some(0)
  }

  ghost function SettleAuctionComplete(m: Market, w: World): Option<World> {
    if || !w.response.Prepared? || m.preparedCustody !in w.tokens
       || w.auction.None? || w.auction.value.info.None? || !w.auction.value.status.Completed?
    then None
    else
      var bestOffer := w.auction.value.info.value.bestOfferToken;
      var penalty := w.auction.value.status.executePenalty;
      var repayment := w.tokens[m.preparedCustody];
      var toBaseFee := BaseFeePayout(m, w, penalty, bestOffer);
      if toBaseFee.None? || toBaseFee.value > repayment then None
      else
        var paid := Credit(Credit(w.tokens, w.response.baseFeeToken, toBaseFee.value),
                           bestOffer, repayment - toBaseFee.value);
        Some(w.(
          tokens := paid - {m.preparedCustody},
          auction := Some(Auction(Settled(m.baseFee,
            if penalty.Some? then Some(SatAdd64(penalty.value, m.baseFee)) else None), w.auction.value.info)),
          response := Consumed))
  }

  /** Nothing was auctioned: there is no auction account, or for a local order the one that
      reserving its sequence number has left. */
  ghost predicate NoAuction(m: Market, w: World) {
    if m.targetProtocol.Local?
    then w.auction == Some(Auction(NotStarted, None)) && w.sequenceReserved
    else w.auction.None?
  }

  /** Without an auction the user still gets the slow transfer, less both fees. */
  ghost function SettleAuctionNone(m: Market, w: World, feeRecipient: Pubkey): Option<World> {
    var fee := SatAdd64(m.baseFee, m.order.initAuctionFee);
    if || !NoAuction(m, w) || !w.response.Prepared? || m.preparedCustody !in w.tokens
       || feeRecipient !in w.tokens || (feeRecipient == m.preparedCustody && fee != 0)
       || w.tokens[m.preparedCustody] < fee
    then None
    else Some(w.(
      tokens := Credit(w.tokens, feeRecipient, fee) - {m.preparedCustody},
      auction := Some(Auction(Settled(fee, None), None)),
      response := Consumed,
      delivered := Some(w.tokens[m.preparedCustody] - fee),
      sequenceReserved := false))
  }

  /** Once the order has expired the account of a settled auction can be closed by anyone. */
  ghost function CloseAuction(m: Market, w: World): Option<World> {
    if w.auction.None? || !w.auction.value.status.Settled? || w.clock < Expiration(m) then None
    else Some(w.(auction := None))
  }

  // ------------------------------------------------------------------------- the invariant

  ghost predicate Inv(m: Market, w: World) {
    && ValidParameters(m.params)
    && m.custody != m.preparedCustody
    && AuctionInv(m, w)
    && (match w.response
        case Unprepared => m.preparedCustody !in w.tokens
        case Prepared(baseFeeToken) =>
          && baseFeeToken != m.preparedCustody && m.preparedCustody in w.tokens
          && w.tokens[m.preparedCustody] >= m.order.amountIn
        case Consumed => m.preparedCustody !in w.tokens)
  }

  /** The custody account is open only while the auction is active, and then always covers
      the stake of the best offer; the price never exceeds the user's maximum fee. Without an
      auction account nothing has happened yet, or everything has and the order has expired. */
  ghost predicate AuctionInv(m: Market, w: World) {
    match w.auction
    case None =>
      && m.custody !in w.tokens && !w.sequenceReserved
      && (if w.response.Consumed? then w.delivered.Some? && Expiration(m) <= w.clock else w.delivered.None?)
    case Some(Auction(status, None)) =>
      && m.custody !in w.tokens
      && (if status.Settled?
          then w.delivered.Some? && w.response.Consumed? && !w.sequenceReserved
          else status.NotStarted? && w.delivered.None? && w.response.Prepared?
               && m.targetProtocol.Local? && w.sequenceReserved)
    case Some(Auction(status, Some(info))) =>
      && InfoInv(m, info) && !status.NotStarted?
      && (status.Settled? <==> w.response.Consumed?)
      && (w.sequenceReserved ==> status.Active? && m.targetProtocol.Local?)
      && (if status == Active
          then m.custody in w.tokens && w.tokens[m.custody] >= info.TotalDeposit() && w.delivered.None?
          else m.custody !in w.tokens && w.delivered.Some?)
  }

  ghost predicate InfoInv(m: Market, info: AuctionInfo) {
    && info.amountIn == m.order.amountIn
    && info.securityDeposit == SecurityDeposit(m)
    && info.amountIn + info.securityDeposit <= U64_MAX
    && info.offerPrice <= m.order.maxFee
    && !ProgramOwned(m, info.bestOfferToken)
    && !ProgramOwned(m, info.initialOfferToken)
  }

  lemma PlaceKeepsInv(m: Market, w: World, offerToken: Pubkey, offerPrice: u64, at: Setting)
    requires Inv(m, w) && PlaceInitialOffer(m, w, offerToken, offerPrice, at).Some?
    ensures Inv(m, PlaceInitialOffer(m, w, offerToken, offerPrice, at).value)
  {
  }

  lemma ImproveKeepsInv(m: Market, w: World, offerToken: Pubkey, offerPrice: u64, slot: u64)
    requires Inv(m, w) && ImproveOffer(m, w, offerToken, offerPrice, slot).Some?
    ensures Inv(m, ImproveOffer(m, w, offerToken, offerPrice, slot).value)
  {
    ImprovementLowersPrice(m.params, Info(w), offerPrice);
  }

  lemma ExecuteKeepsInv(m: Market, w: World, executor: Pubkey, slot: u64)
    requires Inv(m, w) && ExecuteFastOrder(m, w, executor, slot).Some?
    ensures Inv(m, ExecuteFastOrder(m, w, executor, slot).value)
  {
  }

  lemma PrepareKeepsInv(m: Market, w: World, baseFeeToken: Pubkey)
    requires Inv(m, w) && PrepareOrderResponse(m, w, baseFeeToken).Some?
    ensures Inv(m, PrepareOrderResponse(m, w, baseFeeToken).value)
  {
  }

  lemma SettleKeepsInv(m: Market, w: World)
    requires Inv(m, w) && SettleAuctionComplete(m, w).Some?
    ensures Inv(m, SettleAuctionComplete(m, w).value)
  {
  }

  lemma SettleNoneKeepsInv(m: Market, w: World, feeRecipient: Pubkey)
    requires Inv(m, w) && SettleAuctionNone(m, w, feeRecipient).Some?
    ensures Inv(m, SettleAuctionNone(m, w, feeRecipient).value)
  {
  }

  lemma ReserveForAuctionKeepsInv(m: Market, w: World, slot: u64)
    requires Inv(m, w) && ReserveForAuction(m, w, slot).Some?
    ensures Inv(m, ReserveForAuction(m, w, slot).value)
  {
  }

  lemma ReserveWithoutAuctionKeepsInv(m: Market, w: World)
    requires Inv(m, w) && ReserveWithoutAuction(m, w).Some?
    ensures Inv(m, ReserveWithoutAuction(m, w).value)
  {
  }

  lemma CloseKeepsInv(m: Market, w: World)
    requires Inv(m, w) && CloseAuction(m, w).Some?
    ensures Inv(m, CloseAuction(m, w).value)
  {
  }
}
