/** The zero-copy parser of deposit messages, against the writer of the same messages. */
module RawDeposit {
  import opened Bytes
  import opened MachineInts
  import opened Wrappers

  // -------------------------------------------------------------------------------- the writer

  datatype FillValue = FillValue(sourceChain: u16, orderSender: bytes, redeemer: bytes, redeemerMessage: bytes)

  /** Two 32-byte addresses and a message whose length fits its two-byte prefix. */
  ghost predicate Writeable(f: FillValue) {
    |f.orderSender| == 32 && |f.redeemer| == 32 && |f.redeemerMessage| <= U16_MAX
  }

  function WriteFill(f: FillValue): bytes {
    BE(f.sourceChain, 2) + f.orderSender + f.redeemer + BE(|f.redeemerMessage|, 2) + f.redeemerMessage
  }

  function WriteSlowOrderResponse(baseFee: u64): bytes {
    BE(baseFee, 8)
  }

  // -------------------------------------------------------------------------------- the parser

  /** A parsed message is a view of its span. */
  datatype Fill = Fill(span: bytes) {
    function SourceChain(): u16
      requires |span| >= 2
    {
      FitsU16(span[..2]);
      FromBE(span[..2])
    }

    function OrderSender(): bytes
      requires |span| >= 34
    {
      span[2..34]
    }

    function Redeemer(): bytes
      requires |span| >= 66
    {
      span[34..66]
    }

    function RedeemerMessageLen(): u16
      requires |span| >= 68
    {
      FitsU16(span[66..68]);
      FromBE(span[66..68])
    }

    function RedeemerMessage(): bytes
      requires |span| >= 68
    {
      span[68..]
    }

    static function Parse(span: bytes): Result<Fill, string> {
      if |span| < 68 then Err("Fill span too short. Need at least 68 bytes")
      else
        var fill := Fill(span);
        if |fill.RedeemerMessage()| != fill.RedeemerMessageLen() then Err("Fill payload length mismatch")
        else Ok(fill)
    }
  }

  datatype SlowOrderResponse = SlowOrderResponse(span: bytes) {
    function BaseFee(): u64
      requires |span| >= 8
    {
      FromBERoundTrip(span[..8]);
      Pow256Widths();
      FromBE(span[..8])
    }

    static function Parse(span: bytes): Result<SlowOrderResponse, string> {
      if |span| != 8 then Err("SlowOrderResponse span too short. Need exactly 8 bytes")
      else Ok(SlowOrderResponse(span))
    }
  }

  datatype LiquidityLayerDepositMessage =
    | FillMessage(fill: Fill)
    | SlowOrderResponseMessage(response: SlowOrderResponse)

  function Parse(span: bytes): Result<LiquidityLayerDepositMessage, string> {
    if span == [] then Err("LiquidityLayerDepositMessage span too short. Need at least 1 byte")
    else if span[0] == 1 then
      match Fill.Parse(span[1..])
      case Ok(fill) => Ok(FillMessage(fill))
      case Err(error) => Err(error)
    else if span[0] == 2 then
      match SlowOrderResponse.Parse(span[1..])
      case Ok(response) => Ok(SlowOrderResponseMessage(response))
      case Err(error) => Err(error)
    else Err("Unknown LiquidityLayerDepositMessage type")
  }

  lemma FitsU16(b: bytes)
    requires |b| == 2
    ensures FromBE(b) <= U16_MAX
  {
    FromBERoundTrip(b);
    Pow256Widths();
  }

  // ------------------------------------------------------------------------------ main results

  /** Where the writer puts each field, and where the accessors look for it. */
  lemma FillPositions(f: FillValue)
    requires Writeable(f)
    ensures var b := WriteFill(f);
      && |b| == 68 + |f.redeemerMessage|
      && b[0..2] == BE(f.sourceChain, 2) && b[2..34] == f.orderSender && b[34..66] == f.redeemer
      && b[66..68] == BE(|f.redeemerMessage|, 2) && b[68..] == f.redeemerMessage
  {
    hide BE;
    var chain, len := BE(f.sourceChain, 2), BE(|f.redeemerMessage|, 2);
    var upToSender := chain + f.orderSender;
    var upToRedeemer := upToSender + f.redeemer;
    var upToLen := upToRedeemer + len;
    var b := upToLen + f.redeemerMessage;
    assert b == WriteFill(f) && b[..68] == upToLen && b[68..] == f.redeemerMessage;
    assert upToLen[..66] == upToRedeemer && upToLen[66..68] == len;
    assert upToRedeemer[..34] == upToSender && upToRedeemer[34..66] == f.redeemer;
    assert upToSender[..2] == chain && upToSender[2..34] == f.orderSender;
    assert b[66..68] == b[..68][66..68] && b[..66] == b[..68][..66];
    assert b[34..66] == b[..66][34..66] && b[..34] == b[..66][..34];
    assert b[2..34] == b[..34][2..34] && b[0..2] == b[..34][0..2];
  }

  /** What the accessors read from an accepted span, written again, is that span. */
  lemma ReencodeParsed(span: bytes)
    requires Parse(span).Ok?
    ensures match Parse(span).value
      case FillMessage(fill) =>
        && |fill.span| >= 68
        && var f := FillValue(fill.SourceChain(), fill.OrderSender(), fill.Redeemer(), fill.RedeemerMessage());
           Writeable(f) && span == [1] + WriteFill(f)
      case SlowOrderResponseMessage(response) =>
        |response.span| == 8 && span == [2] + WriteSlowOrderResponse(response.BaseFee())
  {
    hide FromBE, BE;
    var body := span[1..];
    if span[0] == 1 {
      FromBERoundTrip(body[..2]);
      FromBERoundTrip(body[66..68]);
      assert body == body[..2] + body[2..34] + body[34..66] + body[66..68] + body[68..];
    } else {
      FromBERoundTrip(body[..8]);
      assert body == body[..8];
    }
  }

  /** What the writer writes is accepted, and every field is read back. */
  lemma ParseWrittenFill(f: FillValue)
    requires Writeable(f)
    ensures var parsed := Parse([1] + WriteFill(f));
      && parsed.Ok? && parsed.value.FillMessage? && |parsed.value.fill.span| >= 68
      && var fill := parsed.value.fill;
         f == FillValue(fill.SourceChain(), fill.OrderSender(), fill.Redeemer(), fill.RedeemerMessage())
  {
    hide FromBE, BE;
    var b := WriteFill(f);
    Pow256Widths();
    BERoundTrip(f.sourceChain, 2);
    BERoundTrip(|f.redeemerMessage|, 2);
    assert ([1] + b)[1..] == b;
    assert b[..2] == BE(f.sourceChain, 2) && b[66..68] == BE(|f.redeemerMessage|, 2);
    assert b[2..34] == f.orderSender && b[34..66] == f.redeemer && b[68..] == f.redeemerMessage;
  }

  lemma ParseWrittenResponse(baseFee: u64)
    ensures var parsed := Parse([2] + WriteSlowOrderResponse(baseFee));
      && parsed.Ok? && parsed.value.SlowOrderResponseMessage? && |parsed.value.response.span| == 8
      && parsed.value.response.BaseFee() == baseFee
  {
    var b := WriteSlowOrderResponse(baseFee);
    Pow256Widths();
    BERoundTrip(baseFee, 8);
    assert ([2] + b)[1..] == b && b[..8] == b;
  }

  /** The parser accepts exactly what the writer can write. */
  lemma ParserIsCanonical(span: bytes)
    ensures Parse(span).Ok? <==>
      || (exists f :: Writeable(f) && span == [1] + WriteFill(f))
      || (exists baseFee: u64 :: span == [2] + WriteSlowOrderResponse(baseFee))
  {
    if Parse(span).Ok? {
      ReencodeParsed(span);
    }
    if f :| Writeable(f) && span == [1] + WriteFill(f) {
      ParseWrittenFill(f);
    }
    if baseFee: u64 :| span == [2] + WriteSlowOrderResponse(baseFee) {
      ParseWrittenResponse(baseFee);
    }
  }
}
