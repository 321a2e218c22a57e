/** The SDK's codec for CCTP messages and the token-burn messages inside them. */
module CctpMessages {
  import opened Bytes
  import opened MachineInts
  import opened Wrappers

  const HEADER: nat := 116
  const BURN: nat := 132

  datatype Cctp = Cctp(
    version: u32, sourceDomain: u32, destinationDomain: u32, nonce: u64,
    sender: bytes, recipient: bytes, targetCaller: bytes)

  datatype CctpMessage = CctpMessage(cctp: Cctp, message: bytes)

  datatype CctpTokenBurnMessage = CctpTokenBurnMessage(
    cctp: Cctp, version: u32, burnTokenAddress: bytes, mintRecipient: bytes, amount: nat, sender: bytes)

  // -------------------------------------------------------------------------- the wire format

  ghost function HeaderBytes(c: Cctp): bytes {
    BE(c.version, 4) + BE(c.sourceDomain, 4) + BE(c.destinationDomain, 4) + BE(c.nonce, 8)
    + c.sender + c.recipient + c.targetCaller
  }

  ghost function BurnBytes(m: CctpTokenBurnMessage): bytes {
    BE(m.version, 4) + m.burnTokenAddress + m.mintRecipient + BE(m.amount, 32) + m.sender
  }

  ghost predicate HeaderSized(c: Cctp) {
    |c.sender| == 32 && |c.recipient| == 32 && |c.targetCaller| == 32
  }

  ghost predicate BurnSized(m: CctpTokenBurnMessage) {
    && HeaderSized(m.cctp)
    && |m.burnTokenAddress| == 32 && |m.mintRecipient| == 32 && |m.sender| == 32
  }

  // ---------------------------------------------------------------------------------- decoding

  function ReadU32(b: bytes, offset: nat): Option<u32> {
    ReadIsSmall(b, offset, 4);
    ReadBE(b, offset, 4)
  }

  function ReadU64(b: bytes, offset: nat): Option<u64> {
    ReadIsSmall(b, offset, 8);
    ReadBE(b, offset, 8)
  }

  lemma ReadIsSmall(b: bytes, offset: nat, width: nat)
    ensures ReadBE(b, offset, width).Some? ==> ReadBE(b, offset, width).value < Pow256(width)
    ensures Pow256(4) == U32_MAX + 1 && Pow256(8) == U64_MAX + 1
  {
    Pow256Widths();
    if offset + width <= |b| {
      FromBERoundTrip(b[offset..offset + width]);
    }
  }

  /** Throws on a buffer too short for the four integers; shorter addresses are let through. */
  function DecodeMessage(buf: bytes): Option<CctpMessage> {
    var version := ReadU32(buf, 0);
    var sourceDomain := ReadU32(buf, 4);
    var destinationDomain := ReadU32(buf, 8);
    var nonce := ReadU64(buf, 12);
    if version.None? || sourceDomain.None? || destinationDomain.None? || nonce.None? then None
    else Some(CctpMessage(
      Cctp(version.value, sourceDomain.value, destinationDomain.value, nonce.value,
           Slice(buf, 20, 52), Slice(buf, 52, 84), Slice(buf, 84, 116)),
      Slice(buf, 116, |buf|)))
  }

  function DecodeTokenBurn(buf: bytes): Option<CctpTokenBurnMessage> {
    var decoded := DecodeMessage(buf);
    if decoded.None? then None
    else
      var CctpMessage(cctp, message) := decoded.value;
      var version := ReadU32(message, 0);
      if version.None? then None
      else Some(CctpTokenBurnMessage(
        cctp, version.value, Slice(message, 4, 36), Slice(message, 36, 68),
        FromBE(Slice(message, 68, 100)), Slice(message, 100, 132)))
  }

  // ---------------------------------------------------------------------------------- encoding

  /** A buffer after one more write, if all writes so far fit. */
  ghost function Overwritten(b: Option<bytes>, src: bytes, offset: nat): (r: Option<bytes>)
    ensures r.Some? <==> b.Some? && offset + |src| <= |b.value|
    ensures r.Some? ==> |r.value| == |b.value|
  {
    if b.None? || offset + |src| > |b.value| then None
    else Some(b.value[..offset] + src + b.value[offset + |src|..])
  }

  /** Writes bytes at an offset; throws, writing nothing, when they do not fit. */
  method WriteAt(buf: array<byte>, src: bytes, offset: nat) returns (ok: bool)
    modifies buf
    ensures ok <==> offset + |src| <= buf.Length
    ensures ok ==> Some(buf[..]) == Overwritten(Some(old(buf[..])), src, offset)
    ensures !ok ==> buf[..] == old(buf[..])
  {
    if offset + |src| > buf.Length { return false; }
    for i := 0 to |src|
      invariant forall j :: 0 <= j < buf.Length ==>
        buf[j] == if offset <= j < offset + i then src[j - offset] else old(buf[j])
    {
      buf[offset + i] := src[i];
    }
    assert buf[..] == old(buf[..offset]) + src + old(buf[offset + |src|..]);
    return true;
  }

  /** The addresses are written 32 bytes apart, whatever their lengths: a longer one is
      overwritten by the next, or does not fit; a shorter one leaves zeros. */
  ghost function EncodedCctp(c: Cctp): Option<bytes> {
    var version := Overwritten(Some(Zeros(HEADER)), BE(c.version, 4), 0);
    var domains := Overwritten(Overwritten(version, BE(c.sourceDomain, 4), 4), BE(c.destinationDomain, 4), 8);
    var integers := Overwritten(domains, BE(c.nonce, 8), 12);
    Overwritten(Overwritten(Overwritten(integers, c.sender, 20), c.recipient, 52), c.targetCaller, 84)
  }

  ghost function EncodedMessage(m: CctpMessage): Option<bytes> {
    var header := EncodedCctp(m.cctp);
    if header.None? then None else Some(header.value + m.message)
  }

  ghost function EncodedBody(m: CctpTokenBurnMessage): Option<bytes> {
    if AmountLength(m.amount) > 32 then None
    else
      var version := Overwritten(Some(Zeros(BURN)), BE(m.version, 4), 0);
      var addresses := Overwritten(Overwritten(version, m.burnTokenAddress, 4), m.mintRecipient, 36);
      Overwritten(Overwritten(addresses, BE(m.amount, 32), 68), m.sender, 100)
  }

  ghost function EncodedTokenBurn(m: CctpTokenBurnMessage): Option<bytes> {
    var body := EncodedBody(m);
    if body.None? then None else EncodedMessage(CctpMessage(m.cctp, body.value))
  }

  method EncodeCctp(c: Cctp) returns (r: Option<bytes>)
    ensures r == EncodedCctp(c)
  {
    hide BE, Overwritten;
    var buf := new byte[HEADER](_ => 0);
    assert buf[..] == Zeros(HEADER);
    var offset := 0;
    var ok := WriteAt(buf, BE(c.version, 4), offset);
    offset := offset + 4;
    ok := WriteAt(buf, BE(c.sourceDomain, 4), offset);
    offset := offset + 4;
    ok := WriteAt(buf, BE(c.destinationDomain, 4), offset);
    offset := offset + 4;
    ok := WriteAt(buf, BE(c.nonce, 8), offset);
    offset := offset + 8;
    ok := WriteAt(buf, c.sender, offset);
    if !ok { return None; }
    offset := offset + 32;
    ok := WriteAt(buf, c.recipient, offset);
    if !ok { return None; }
    offset := offset + 32;
    ok := WriteAt(buf, c.targetCaller, offset);
    if !ok { return None; }
    return Some(buf[..]);
  }

  method EncodeMessage(m: CctpMessage) returns (r: Option<bytes>)
    ensures r == EncodedMessage(m)
  {
    var header := EncodeCctp(m.cctp);
    if header.None? { return None; }
    return Some(header.value + m.message);
  }

  method EncodeTokenBurn(m: CctpTokenBurnMessage) returns (r: Option<bytes>)
    ensures r == EncodedTokenBurn(m)
  {
    hide BE, EncodedCctp, AmountLength, Overwritten;
    var buf := new byte[BURN](_ => 0);
    assert buf[..] == Zeros(BURN);
    var offset := 0;
    var ok := WriteAt(buf, BE(m.version, 4), offset);
    offset := offset + 4;
    ok := WriteAt(buf, m.burnTokenAddress, offset);
    if !ok { return None; }
    offset := offset + 32;
    ok := WriteAt(buf, m.mintRecipient, offset);
    if !ok { return None; }
    offset := offset + 32;

    if AmountLength(m.amount) > 32 { return None; }
    var encodedAmount := BE(m.amount, 32);
    offset := offset + 32;
    ok := WriteAt(buf, encodedAmount, offset - |encodedAmount|);

    ok := WriteAt(buf, m.sender, offset);
    if !ok { return None; }

    var header := EncodeCctp(m.cctp);
    if header.None? { return None; }
    return Some(header.value + buf[..]);
  }

  /** How many bytes a number needs. */
  function AmountLength(n: nat): nat {
    if n == 0 then 0 else 1 + AmountLength(n / 256)
  }

  lemma {:induction false} AmountLengthIff(n: nat, k: nat)
    ensures AmountLength(n) <= k <==> n < Pow256(k)
    decreases k
  {
    if k > 0 && n > 0 {
      AmountLengthIff(n / 256, k - 1);
    }
  }

  // ------------------------------------------------------------------------------ what is sent

  /** Writing a field where the zeros start moves their start past it. */
  lemma AppendField(done: bytes, zeros: nat, field: bytes)
    requires |field| <= zeros
    ensures Overwritten(Some(done + Zeros(zeros)), field, |done|) == Some(done + field + Zeros(zeros - |field|))
  {
    var b := done + Zeros(zeros);
    assert b[..|done|] == done && b[|done| + |field|..] == Zeros(zeros - |field|);
  }

  lemma EncodedCctpDefined(c: Cctp)
    ensures EncodedCctp(c).Some? <==> |c.sender| <= 96 && |c.recipient| <= 64 && |c.targetCaller| <= 32
    ensures EncodedCctp(c).Some? ==> |EncodedCctp(c).value| == HEADER
  {
    hide BE, Overwritten;
  }

  lemma EncodedCctpIsHeader(c: Cctp)
    requires HeaderSized(c)
    ensures EncodedCctp(c) == Some(HeaderBytes(c))
  {
    hide BE, Overwritten, Zeros;
    var version := BE(c.version, 4);
    var domains := version + BE(c.sourceDomain, 4) + BE(c.destinationDomain, 4);
    var integers := domains + BE(c.nonce, 8);
    assert Zeros(HEADER) == [] + Zeros(HEADER) && [] + version == version;
    AppendField([], 116, version);
    AppendField(version, 112, BE(c.sourceDomain, 4));
    AppendField(version + BE(c.sourceDomain, 4), 108, BE(c.destinationDomain, 4));
    AppendField(domains, 104, BE(c.nonce, 8));
    AppendField(integers, 96, c.sender);
    AppendField(integers + c.sender, 64, c.recipient);
    AppendField(integers + c.sender + c.recipient, 32, c.targetCaller);
    assert Zeros(0) == [] && HeaderBytes(c) + [] == HeaderBytes(c);
  }

  lemma EncodedBodyDefined(m: CctpTokenBurnMessage)
    ensures EncodedBody(m).Some?
      <==> m.amount < Pow256(32) && |m.burnTokenAddress| <= 128 && |m.mintRecipient| <= 96 && |m.sender| <= 32
    ensures EncodedBody(m).Some? ==> |EncodedBody(m).value| == BURN
  {
    hide BE, AmountLength, Overwritten;
    AmountLengthIff(m.amount, 32);
  }

  lemma EncodedBodyIsBurn(m: CctpTokenBurnMessage)
    requires BurnSized(m) && m.amount < Pow256(32)
    ensures EncodedBody(m) == Some(BurnBytes(m))
  {
    hide BE, AmountLength, Overwritten, Zeros, Pow256;
    AmountLengthIff(m.amount, 32);
    var version, amount := BE(m.version, 4), BE(m.amount, 32);
    assert Zeros(BURN) == [] + Zeros(BURN) && [] + version == version;
    AppendField([], 132, version);
    AppendField(version, 128, m.burnTokenAddress);
    AppendField(version + m.burnTokenAddress, 96, m.mintRecipient);
    AppendField(version + m.burnTokenAddress + m.mintRecipient, 64, amount);
    AppendField(version + m.burnTokenAddress + m.mintRecipient + amount, 32, m.sender);
    assert Zeros(0) == [] && BurnBytes(m) + [] == BurnBytes(m);
  }

  // -------------------------------------------------------------------------------- round trips

  lemma ReadBack(b: bytes, offset: nat, n: nat, width: nat)
    requires offset + width <= |b| && b[offset..offset + width] == BE(n, width) && n < Pow256(width)
    ensures ReadBE(b, offset, width) == Some(n)
  {
    BERoundTrip(n, width);
  }

  lemma DecodeEncodeMessage(m: CctpMessage)
    requires HeaderSized(m.cctp)
    ensures DecodeMessage(HeaderBytes(m.cctp) + m.message) == Some(m)
  {
    hide FromBE, BE;
    var c := m.cctp;
    var b := HeaderBytes(c) + m.message;
    Pow256Widths();
    assert b[0..4] == BE(c.version, 4) && b[4..8] == BE(c.sourceDomain, 4);
    assert b[8..12] == BE(c.destinationDomain, 4) && b[12..20] == BE(c.nonce, 8);
    ReadBack(b, 0, c.version, 4);
    ReadBack(b, 4, c.sourceDomain, 4);
    ReadBack(b, 8, c.destinationDomain, 4);
    ReadBack(b, 12, c.nonce, 8);
    assert Slice(b, 20, 52) == c.sender && Slice(b, 52, 84) == c.recipient && Slice(b, 84, 116) == c.targetCaller;
    assert Slice(b, 116, |b|) == m.message;
  }

  /** Any buffer with a full header is the encoding of what it decodes to. */
  lemma EncodeDecodeMessage(b: bytes)
    requires |b| >= HEADER
    ensures DecodeMessage(b).Some?
    ensures var m := DecodeMessage(b).value; HeaderSized(m.cctp) && HeaderBytes(m.cctp) + m.message == b
  {
    hide FromBE, BE;
    FromBERoundTrip(b[0..4]);
    FromBERoundTrip(b[4..8]);
    FromBERoundTrip(b[8..12]);
    FromBERoundTrip(b[12..20]);
    assert b == b[0..4] + b[4..8] + b[8..12] + b[12..20] + b[20..52] + b[52..84] + b[84..116] + b[116..];
  }

  lemma DecodeEncodeTokenBurn(m: CctpTokenBurnMessage)
    requires BurnSized(m) && m.amount < Pow256(32)
    ensures DecodeTokenBurn(HeaderBytes(m.cctp) + BurnBytes(m)) == Some(m)
  {
    hide FromBE, BE, HeaderBytes, BurnBytes, DecodeMessage;
    DecodeEncodeMessage(CctpMessage(m.cctp, BurnBytes(m)));
    DecodeEncodeBody(m);
  }

  lemma DecodeEncodeBody(m: CctpTokenBurnMessage)
    requires BurnSized(m) && m.amount < Pow256(32)
    ensures var body := BurnBytes(m);
      && ReadU32(body, 0) == Some(m.version) && FromBE(Slice(body, 68, 100)) == m.amount
      && Slice(body, 4, 36) == m.burnTokenAddress && Slice(body, 36, 68) == m.mintRecipient
      && Slice(body, 100, 132) == m.sender
  {
    hide FromBE, BE;
    var body := BurnBytes(m);
    Pow256Widths();
    BodyLayout(BE(m.version, 4), m.burnTokenAddress, m.mintRecipient, BE(m.amount, 32), m.sender, body);
    ReadBack(body, 0, m.version, 4);
    BERoundTrip(m.amount, 32);
  }

  /** Where each field of the header lies, and each of the body behind it. */
  lemma HeaderPositions(c: Cctp)
    requires HeaderSized(c)
    ensures var b := HeaderBytes(c);
      && |b| == 116
      && b[0..4] == BE(c.version, 4) && b[4..8] == BE(c.sourceDomain, 4) && b[8..12] == BE(c.destinationDomain, 4)
      && b[12..20] == BE(c.nonce, 8)
      && b[20..52] == c.sender && b[52..84] == c.recipient && b[84..116] == c.targetCaller
  {
    hide BE;
    var integers := BE(c.version, 4) + BE(c.sourceDomain, 4) + BE(c.destinationDomain, 4) + BE(c.nonce, 8);
    var upToSender := integers + c.sender;
    var upToRecipient := upToSender + c.recipient;
    var b := upToRecipient + c.targetCaller;
    assert b == HeaderBytes(c);
    assert b[..84] == upToRecipient && b[84..116] == c.targetCaller;
    assert upToRecipient[..52] == upToSender && upToRecipient[52..84] == c.recipient;
    assert upToSender[..20] == integers && upToSender[20..52] == c.sender;
    assert b[52..84] == b[..84][52..84] && b[..52] == b[..84][..52];
    assert b[20..52] == b[..52][20..52] && b[..20] == b[..52][..20];
    assert b[0..4] == b[..20][0..4] && b[4..8] == b[..20][4..8];
    assert b[8..12] == b[..20][8..12] && b[12..20] == b[..20][12..20];
  }

  lemma BodyPositions(m: CctpTokenBurnMessage)
    requires BurnSized(m)
    ensures var b := HeaderBytes(m.cctp) + BurnBytes(m);
      && |b| == 248
      && b[116..120] == BE(m.version, 4) && b[120..152] == m.burnTokenAddress && b[152..184] == m.mintRecipient
      && b[184..216] == BE(m.amount, 32) && b[216..248] == m.sender
  {
    hide BE;
    var header, body := HeaderBytes(m.cctp), BurnBytes(m);
    BodyLayout(BE(m.version, 4), m.burnTokenAddress, m.mintRecipient, BE(m.amount, 32), m.sender, body);
    BehindHeader(header, body, 0, 4);
    BehindHeader(header, body, 4, 36);
    BehindHeader(header, body, 36, 68);
    BehindHeader(header, body, 68, 100);
    BehindHeader(header, body, 100, 132);
  }

  lemma BehindHeader(header: bytes, body: bytes, x: nat, y: nat)
    requires x <= y <= |body|
    ensures (header + body)[|header| + x..|header| + y] == body[x..y]
  {
  }

  lemma BodyLayout(version: bytes, token: bytes, recipient: bytes, amount: bytes, sender: bytes, body: bytes)
    requires |version| == 4 && |token| == |recipient| == |amount| == |sender| == 32
    requires body == version + token + recipient + amount + sender
    ensures |body| == BURN && body[0..4] == version && body[4..36] == token && body[36..68] == recipient
    ensures body[68..100] == amount && body[100..132] == sender
  {
    var upToToken := version + token;
    var upToRecipient := upToToken + recipient;
    var upToAmount := upToRecipient + amount;
    assert body[..100] == upToAmount && body[100..132] == sender;
    assert upToAmount[..68] == upToRecipient && upToAmount[68..100] == amount;
    assert upToRecipient[..36] == upToToken && upToRecipient[36..68] == recipient;
    assert body[68..100] == body[..100][68..100] && body[..68] == body[..100][..68];
    assert body[36..68] == body[..68][36..68] && body[..36] == body[..68][..36];
    assert body[4..36] == body[..36][4..36] && body[0..4] == body[..36][0..4];
  }

  lemma DecodeMessageDefined(b: bytes)
    ensures DecodeMessage(b).Some? <==> |b| >= 20
  {
    hide FromBE;
  }

  lemma DecodeTokenBurnDefined(b: bytes)
    ensures DecodeTokenBurn(b).Some? <==> |b| >= HEADER + 4
  {
    hide FromBE;
  }

  /** Decoding reads the first 248 bytes and loses nothing of them. */
  lemma EncodeDecodeTokenBurn(b: bytes)
    requires |b| >= HEADER + BURN
    ensures DecodeTokenBurn(b).Some?
    ensures var m := DecodeTokenBurn(b).value;
      && BurnSized(m) && m.amount < Pow256(32)
      && HeaderBytes(m.cctp) + BurnBytes(m) == b[..HEADER + BURN]
  {
    hide FromBE, BE;
    EncodeDecodeMessage(b);
    DecodeTokenBurnDefined(b);
    var body := b[116..];
    EncodeDecodeBody(DecodeTokenBurn(b).value, body);
    var c := DecodeMessage(b).value.cctp;
    assert HeaderBytes(c) == (HeaderBytes(c) + body)[..116];
    assert b[..248] == b[..116] + body[..132];
  }

  lemma EncodeDecodeBody(m: CctpTokenBurnMessage, body: bytes)
    requires |body| >= BURN && ReadU32(body, 0) == Some(m.version)
    requires m.burnTokenAddress == Slice(body, 4, 36) && m.mintRecipient == Slice(body, 36, 68)
    requires m.amount == FromBE(Slice(body, 68, 100)) && m.sender == Slice(body, 100, 132)
    ensures m.amount < Pow256(32) && BurnBytes(m) == body[..BURN]
  {
    hide FromBE, BE;
    FromBERoundTrip(body[0..4]);
    FromBERoundTrip(body[68..100]);
    assert body[..132] == body[0..4] + body[4..36] + body[36..68] + body[68..100] + body[100..132];
  }

  /** Decoding an encoded message gives it back exactly when its addresses have 32 bytes. */
  lemma DecodeEncodeMessageIff(m: CctpMessage)
    requires EncodedMessage(m).Some?
    ensures DecodeMessage(EncodedMessage(m).value) == Some(m) <==> HeaderSized(m.cctp)
  {
    hide EncodedCctp, HeaderBytes, DecodeMessage;
    EncodedCctpDefined(m.cctp);
    EncodeDecodeMessage(EncodedMessage(m).value);
    if HeaderSized(m.cctp) {
      EncodedCctpIsHeader(m.cctp);
      DecodeEncodeMessage(m);
    }
  }

  lemma DecodeEncodeTokenBurnIff(m: CctpTokenBurnMessage)
    requires EncodedTokenBurn(m).Some?
    ensures DecodeTokenBurn(EncodedTokenBurn(m).value) == Some(m) <==> BurnSized(m)
  {
    hide EncodedCctp, HeaderBytes, BurnBytes, EncodedBody, DecodeTokenBurn, Pow256;
    EncodedCctpDefined(m.cctp);
    EncodedBodyDefined(m);
    EncodeDecodeTokenBurn(EncodedTokenBurn(m).value);
    if BurnSized(m) {
      EncodedCctpIsHeader(m.cctp);
      EncodedBodyIsBurn(m);
      DecodeEncodeTokenBurn(m);
    }
  }

  /** The amount sits at bytes 184 to 215, zero-padded on the left. */
  lemma AmountIsRightAligned(m: CctpTokenBurnMessage, k: nat)
    requires BurnSized(m) && k <= 32 && m.amount < Pow256(k)
    ensures (HeaderBytes(m.cctp) + BurnBytes(m))[184..216] == Zeros(32 - k) + BE(m.amount, k)
  {
    hide BE;
    BEIsRightAligned(m.amount, k, 32);
    assert (HeaderBytes(m.cctp) + BurnBytes(m))[184..216] == BurnBytes(m)[68..100];
    assert BurnBytes(m)[68..100] == BE(m.amount, 32);
  }
}
