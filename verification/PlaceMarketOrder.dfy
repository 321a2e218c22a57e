/** The fee checks of the source-chain router, which decide what orders the matching engine
    is ever asked to fill. */
module MarketOrders {
  import opened AuctionLifecycle
  import opened MachineInts
  import opened Wrappers

  datatype FastTransferParameters = FastTransferParameters(
    enabled: bool, maxAmount: u64, baseFee: u64, initAuctionFee: u64)

  const MIN_FAST_TRANSFER_AMOUNT: u64 := 100_000_000

  /** What the router checks before it publishes an order and its base fee. The initiator fee
      is taken out of the maximum fee the user gave. */
  function HandleFastOrder(
    fast: FastTransferParameters, amountIn: u64, maxFee: u64, targetChain: u16, deadline: u32
  ): Option<(FastOrder, u64)>
  {
    var minimumRequiredFee := fast.baseFee + fast.initAuctionFee + 1;
    if !fast.enabled || amountIn > fast.maxAmount then None
    else if minimumRequiredFee > U64_MAX || maxFee < minimumRequiredFee then None
    else if amountIn <= maxFee || amountIn < MIN_FAST_TRANSFER_AMOUNT then None
    else Some((FastOrder(amountIn, maxFee - fast.initAuctionFee, fast.initAuctionFee, targetChain, deadline),
               fast.baseFee))
  }

  /** The fees an order can cost fit into its amount, and the slow path is cheaper. */
  ghost predicate Sound(order: FastOrder, baseFee: u64) {
    order.maxFee + order.initAuctionFee < order.amountIn && baseFee < order.maxFee
  }

  /** When an order is published, exactly, and what it then says: all that the user is charged
      at most, maximum fee and initiator fee together, is the maximum fee he gave. */
  lemma RouterPublishesUserTerms(
    fast: FastTransferParameters, amountIn: u64, maxFee: u64, targetChain: u16, deadline: u32)
    ensures var published := HandleFastOrder(fast, amountIn, maxFee, targetChain, deadline);
      && (published.Some? <==>
            && fast.enabled && 100_000_000 <= amountIn <= fast.maxAmount
            && fast.baseFee + fast.initAuctionFee < maxFee < amountIn)
      && (published.Some? ==>
            var (order, baseFee) := published.value;
            && order.maxFee + order.initAuctionFee == maxFee
            && order.amountIn == amountIn && order.initAuctionFee == fast.initAuctionFee
            && order.targetChain == targetChain && order.deadline == deadline
            && baseFee == fast.baseFee && Sound(order, baseFee))
  {
  }

  /** The router's checks are soundness: of the orders between its smallest and largest amount
      that name its fees, it publishes exactly the sound ones. */
  lemma RouterPublishesSoundOrders(fast: FastTransferParameters, order: FastOrder, baseFee: u64)
    ensures
      (exists maxFee: u64 ::
         HandleFastOrder(fast, order.amountIn, maxFee, order.targetChain, order.deadline) == Some((order, baseFee)))
      <==>
      && fast.enabled && MIN_FAST_TRANSFER_AMOUNT <= order.amountIn <= fast.maxAmount
      && fast.initAuctionFee == order.initAuctionFee && fast.baseFee == baseFee
      && Sound(order, baseFee)
  {
    if Sound(order, baseFee) {
      var maxFee: u64 := order.maxFee + order.initAuctionFee;
      var published := HandleFastOrder(fast, order.amountIn, maxFee, order.targetChain, order.deadline);
      if fast.initAuctionFee == order.initAuctionFee && published.Some? {
        assert published.value.0 == order;
      }
    }
  }
}
