/** The SDK's hand-written reader of an auction history account, a cursor over the bytes
    the program's sequential little-endian serialisation writes. */
module AuctionHistories {
  import opened Bytes
  import opened MachineInts
  import opened Wrappers

  datatype DestinationAssetInfo = DestinationAssetInfo(custodyTokenBump: byte, amountOut: u64)

  datatype AuctionInfo = AuctionInfo(
    configId: u32, custodyTokenBump: byte, vaaSequence: u64, sourceChain: u16,
    bestOfferToken: bytes, initialOfferToken: bytes,
    startSlot: u64, amountIn: u64, securityDeposit: u64, offerPrice: u64,
    redeemerMessageLen: u16, destinationAssetInfo: Option<DestinationAssetInfo>)

  datatype AuctionEntry = AuctionEntry(vaaHash: bytes, vaaTimestamp: u32, info: AuctionInfo)

  datatype AuctionHistory = AuctionHistory(
    id: u64, minTimestamp: Option<u32>, maxTimestamp: Option<u32>, data: seq<AuctionEntry>)

  const DISCRIMINATOR: bytes := [149, 208, 45, 154, 47, 248, 102, 245]
  const HEADER: nat := 30
  const ENTRY: nat := 150

  /** An account holds at least the header with both timestamps set. */
  const START: nat := HEADER

  // ------------------------------------------------------------------------------- the program

  function EncodeTimestamp(t: Option<u32>): bytes {
    if t.Some? then [1] + LE(t.value, 4) else [0]
  }

  function EncodeDestination(d: Option<DestinationAssetInfo>): bytes {
    if d.Some? then [1, d.value.custodyTokenBump] + LE(d.value.amountOut, 8) else [0]
  }

  function EncodeEntryFields(e: AuctionEntry): bytes {
    e.vaaHash + LE(e.vaaTimestamp, 4)
    + LE(e.info.configId, 4) + [e.info.custodyTokenBump] + LE(e.info.vaaSequence, 8) + LE(e.info.sourceChain, 2)
    + e.info.bestOfferToken + e.info.initialOfferToken
    + LE(e.info.startSlot, 8) + LE(e.info.amountIn, 8) + LE(e.info.securityDeposit, 8) + LE(e.info.offerPrice, 8)
    + LE(e.info.redeemerMessageLen, 2)
  }

  function EncodeEntry(e: AuctionEntry): bytes {
    EncodeEntryFields(e) + EncodeDestination(e.info.destinationAssetInfo)
  }

  function EncodeEntries(entries: seq<AuctionEntry>): bytes {
    if entries == [] then [] else EncodeEntries(entries[..|entries| - 1]) + EncodeEntry(entries[|entries| - 1])
  }

  function EncodeHistory(h: AuctionHistory): bytes {
    DISCRIMINATOR + LE(h.id, 8) + EncodeTimestamp(h.minTimestamp) + EncodeTimestamp(h.maxTimestamp)
    + LE(|h.data|, 4) + EncodeEntries(h.data)
  }

  /** Hashes and keys are 32 bytes, and the count fits its prefix. */
  ghost predicate EntrySized(e: AuctionEntry) {
    |e.vaaHash| == 32 && |e.info.bestOfferToken| == 32 && |e.info.initialOfferToken| == 32
  }

  ghost predicate Serialisable(h: AuctionHistory) {
    |h.data| <= U32_MAX && forall e :: e in h.data ==> EntrySized(e)
  }

  // -------------------------------------------------------------------------------- the reader

  function ReadU16(b: bytes, offset: nat): Option<u16> {
    LEIsSmall(b, offset, 2);
    ReadLE(b, offset, 2)
  }

  function ReadU32(b: bytes, offset: nat): Option<u32> {
    LEIsSmall(b, offset, 4);
    ReadLE(b, offset, 4)
  }

  function ReadU64(b: bytes, offset: nat): Option<u64> {
    LEIsSmall(b, offset, 8);
    ReadLE(b, offset, 8)
  }

  lemma LEIsSmall(b: bytes, offset: nat, width: nat)
    ensures ReadLE(b, offset, width).Some? ==> ReadLE(b, offset, width).value < Pow256(width)
    ensures Pow256(2) == U16_MAX + 1 && Pow256(4) == U32_MAX + 1 && Pow256(8) == U64_MAX + 1
  {
    Pow256Widths();
    if offset + width <= |b| {
      FromLERoundTrip(b[offset..offset + width]);
    }
  }

  /** `data[offset] === 1`, where a byte past the end is not equal to anything. */
  predicate IsSet(b: bytes, offset: nat) {
    offset < |b| && b[offset] == 1
  }

  /** One record at the cursor. When asset info is present, the bump and the amount are both
      read at the byte after the tag, which the cursor does not move past. */
  function ReadEntry(b: bytes, o: nat): Option<AuctionEntry> {
    var vaaTimestamp, configId, vaaSequence, sourceChain :=
      ReadU32(b, o + 32), ReadU32(b, o + 36), ReadU64(b, o + 41), ReadU16(b, o + 49);
    var startSlot, amountIn, securityDeposit, offerPrice, redeemerMessageLen :=
      ReadU64(b, o + 115), ReadU64(b, o + 123), ReadU64(b, o + 131), ReadU64(b, o + 139), ReadU16(b, o + 147);
    if redeemerMessageLen.None? then None
    else if IsSet(b, o + 149) && ReadU64(b, o + 150).None? then None
    else
      var destination :=
        if IsSet(b, o + 149) then Some(DestinationAssetInfo(b[o + 150], ReadU64(b, o + 150).value)) else None;
      Some(AuctionEntry(b[o..o + 32], vaaTimestamp.value, AuctionInfo(
        configId.value, b[o + 40], vaaSequence.value, sourceChain.value,
        b[o + 51..o + 83], b[o + 83..o + 115],
        startSlot.value, amountIn.value, securityDeposit.value, offerPrice.value,
        redeemerMessageLen.value, destination)))
  }

  function ReadEntries(b: bytes, o: nat, n: nat): Option<seq<AuctionEntry>> {
    if n == 0 then Some([])
    else
      var before := ReadEntries(b, o, n - 1);
      var last := ReadEntry(b, o + (n - 1) * ENTRY);
      if before.None? || last.None? then None else Some(before.value + [last.value])
  }

  /** The cursor passes four bytes for a timestamp whether or not one is set. */
  function ReadHistory(b: bytes): Option<AuctionHistory> {
    if Slice(b, 0, 8) != DISCRIMINATOR then None
    else
      var id, minTimestamp, maxTimestamp, numEntries := ReadU64(b, 8), ReadU32(b, 17), ReadU32(b, 22), ReadU32(b, 26);
      if numEntries.None? then None
      else
        var entries := ReadEntries(b, HEADER, numEntries.value);
        if entries.None? then None
        else Some(AuctionHistory(id.value,
          if IsSet(b, 16) then minTimestamp else None, if IsSet(b, 21) then maxTimestamp else None, entries.value))
  }

  /** The reader as written: one offset moved along, one push per entry. Every read past the
      end throws. */
  method FetchAuctionHistory(data: bytes) returns (r: Result<AuctionHistory, string>)
    ensures r.Ok? <==> ReadHistory(data).Some?
    ensures r.Ok? ==> r.value == ReadHistory(data).value
  {
    hide ReadEntry;
    var disc := Slice(data, 0, 8);
    if disc != DISCRIMINATOR { return Err("Invalid account history discriminator"); }

    var header, offset := FetchHeader(data);
    if header.None? { return Err("out of range"); }
    var (id, minTimestamp, maxTimestamp, numEntries) := header.value;

    var entries := [];
    for i := 0 to numEntries
      invariant offset == HEADER + i * ENTRY
      invariant ReadEntries(data, HEADER, i) == Some(entries)
    {
      var entry;
      entry, offset := FetchEntry(data, offset);
      if entry.None? {
        ReadEntriesStops(data, HEADER, i + 1, numEntries);
        return Err("out of range");
      }
      entries := entries + [entry.value];
    }
    return Ok(AuctionHistory(id, minTimestamp, maxTimestamp, entries));
  }

  /** Id, timestamps and number of entries, after the discriminator. */
  method FetchHeader(data: bytes) returns (header: Option<(u64, Option<u32>, Option<u32>, u32)>, offset: nat)
    ensures header.Some? <==> ReadU32(data, 26).Some?
    ensures header.Some? ==> offset == HEADER && ReadU64(data, 8).Some?
    ensures header.Some? ==> header.value == (ReadU64(data, 8).value,
      if IsSet(data, 16) then ReadU32(data, 17) else None,
      if IsSet(data, 21) then ReadU32(data, 22) else None, ReadU32(data, 26).value)
  {
    hide FromLE;
    offset := 8;
    var id := ReadU64(data, offset);
    if id.None? { return None, offset; }
    offset := offset + 8;
    var minTimestamp: Option<u32>, maxTimestamp: Option<u32> := None, None;
    offset := offset + 1;
    if IsSet(data, offset - 1) {
      minTimestamp := ReadU32(data, offset);
      if minTimestamp.None? { return None, offset; }
    }
    offset := offset + 4;
    offset := offset + 1;
    if IsSet(data, offset - 1) {
      maxTimestamp := ReadU32(data, offset);
      if maxTimestamp.None? { return None, offset; }
    }
    offset := offset + 4;
    var numEntries := ReadU32(data, offset);
    if numEntries.None? { return None, offset; }
    offset := offset + 4;
    header := Some((id.value, minTimestamp, maxTimestamp, numEntries.value));
  }

  /** The body of the entry loop; a record moves the cursor by its fixed size. */
  method FetchEntry(data: bytes, start: nat) returns (entry: Option<AuctionEntry>, offset: nat)
    ensures entry == ReadEntry(data, start)
    ensures entry.Some? ==> offset == start + ENTRY
  {
    hide FromLE;
    offset := start;
    var vaaHash := Slice(data, offset, offset + 32);
    offset := offset + 32;
    var vaaTimestamp := ReadU32(data, offset);
    if vaaTimestamp.None? { return None, offset; }
    offset := offset + 4;
    var configId := ReadU32(data, offset);
    if configId.None? { return None, offset; }
    offset := offset + 4;
    if offset >= |data| { return None, offset; }
    var custodyTokenBump := data[offset];
    offset := offset + 1;
    var vaaSequence := ReadU64(data, offset);
    if vaaSequence.None? { return None, offset; }
    offset := offset + 8;
    var sourceChain := ReadU16(data, offset);
    if sourceChain.None? { return None, offset; }
    offset := offset + 2;
    var bestOfferToken := Slice(data, offset, offset + 32);
    offset := offset + 32;
    var initialOfferToken := Slice(data, offset, offset + 32);
    offset := offset + 32;
    var startSlot := ReadU64(data, offset);
    if startSlot.None? { return None, offset; }
    offset := offset + 8;
    var amountIn := ReadU64(data, offset);
    if amountIn.None? { return None, offset; }
    offset := offset + 8;
    var securityDeposit := ReadU64(data, offset);
    if securityDeposit.None? { return None, offset; }
    offset := offset + 8;
    var offerPrice := ReadU64(data, offset);
    if offerPrice.None? { return None, offset; }
    offset := offset + 8;
    var redeemerMessageLen := ReadU16(data, offset);
    if redeemerMessageLen.None? { return None, offset; }
    offset := offset + 2;
    var destinationAssetInfo := None;
    offset := offset + 1;
    if IsSet(data, offset - 1) {
      if offset >= |data| { return None, offset; }
      var amountOut := ReadU64(data, offset);
      if amountOut.None? { return None, offset; }
      destinationAssetInfo := Some(DestinationAssetInfo(data[offset], amountOut.value));
    }
    entry := Some(AuctionEntry(vaaHash, vaaTimestamp.value, AuctionInfo(
      configId.value, custodyTokenBump, vaaSequence.value, sourceChain.value, bestOfferToken, initialOfferToken,
      startSlot.value, amountIn.value, securityDeposit.value, offerPrice.value,
      redeemerMessageLen.value, destinationAssetInfo)));
  }

  lemma {:induction false} ReadEntriesStops(b: bytes, o: nat, n: nat, more: nat)
    requires n <= more && ReadEntries(b, o, n).None?
    ensures ReadEntries(b, o, more).None?
    decreases more
  {
    hide ReadEntry;
    if n < more {
      ReadEntriesStops(b, o, n, more - 1);
    }
  }

  // -------------------------------------------------------------------------------- round trip

  lemma SliceInside(b: bytes, o: nat, n: nat, x: nat, y: nat)
    requires o + n <= |b| && x <= y <= n
    ensures b[o..o + n][x..y] == b[o + x..o + y]
  {
    var inner, outer := b[o..o + n][x..y], b[o + x..o + y];
    forall i | 0 <= i < y - x ensures inner[i] == outer[i] {
    }
  }

  /** A number found inside a record that sits in a longer buffer. */
  lemma ReadInside(b: bytes, o: nat, record: bytes, x: nat, n: nat, width: nat)
    requires o + |record| <= |b| && b[o..o + |record|] == record
    requires x + width <= |record| && record[x..x + width] == LE(n, width) && n < Pow256(width)
    ensures ReadLE(b, o + x, width) == Some(n)
  {
    hide FromLE, LE;
    SliceInside(b, o, |record|, x, x + width);
    LERoundTrip(n, width);
  }

  /** Where each field of a record lies. */
  ghost predicate Layout(f: bytes, e: AuctionEntry) {
      && |f| == 149
      && f[0..32] == e.vaaHash && f[32..36] == LE(e.vaaTimestamp, 4)
      && f[36..40] == LE(e.info.configId, 4) && f[40] == e.info.custodyTokenBump
      && f[41..49] == LE(e.info.vaaSequence, 8) && f[49..51] == LE(e.info.sourceChain, 2)
      && f[51..83] == e.info.bestOfferToken && f[83..115] == e.info.initialOfferToken
      && f[115..123] == LE(e.info.startSlot, 8) && f[123..131] == LE(e.info.amountIn, 8)
      && f[131..139] == LE(e.info.securityDeposit, 8) && f[139..147] == LE(e.info.offerPrice, 8)
      && f[147..149] == LE(e.info.redeemerMessageLen, 2)
  }

  lemma EntryFieldsLayout(e: AuctionEntry)
    requires EntrySized(e)
    ensures Layout(EncodeEntryFields(e), e)
  {
  }

  /** Where the serialised program record has each of its fields. */
  lemma RecordPositions(e: AuctionEntry)
    requires EntrySized(e)
    ensures var b, i := EncodeEntry(e), e.info;
      && 150 <= |b|
      && b[0..32] == e.vaaHash && b[32..36] == LE(e.vaaTimestamp, 4)
      && b[36..40] == LE(i.configId, 4) && b[40] == i.custodyTokenBump
      && b[41..49] == LE(i.vaaSequence, 8) && b[49..51] == LE(i.sourceChain, 2)
      && b[51..83] == i.bestOfferToken && b[83..115] == i.initialOfferToken
      && b[115..123] == LE(i.startSlot, 8) && b[123..131] == LE(i.amountIn, 8)
      && b[131..139] == LE(i.securityDeposit, 8) && b[139..147] == LE(i.offerPrice, 8)
      && b[147..149] == LE(i.redeemerMessageLen, 2)
      && b[149..] == match i.destinationAssetInfo
         case None => [0]
         case Some(d) => [1, d.custodyTokenBump] + LE(d.amountOut, 8)
  {
    hide LE;
    var f, rest := EncodeEntryFields(e), EncodeDestination(e.info.destinationAssetInfo);
    EntryFieldsLayout(e);
    FieldsInFront(f, rest, 0, 32);
    FieldsInFront(f, rest, 32, 36);
    FieldsInFront(f, rest, 36, 40);
    FieldsInFront(f, rest, 41, 49);
    FieldsInFront(f, rest, 49, 51);
    FieldsInFront(f, rest, 51, 83);
    FieldsInFront(f, rest, 83, 115);
    FieldsInFront(f, rest, 115, 123);
    FieldsInFront(f, rest, 123, 131);
    FieldsInFront(f, rest, 131, 139);
    FieldsInFront(f, rest, 139, 147);
    FieldsInFront(f, rest, 147, 149);
  }

  lemma FieldsInFront(f: bytes, rest: bytes, x: nat, y: nat)
    requires x <= y <= |f|
    ensures (f + rest)[x..y] == f[x..y] && (f + rest)[|f|..] == rest
    ensures forall i :: 0 <= i < |f| ==> (f + rest)[i] == f[i]
  {
  }

  lemma ReadEntryNumbers(b: bytes, o: nat, f: bytes, e: AuctionEntry)
    requires Layout(f, e) && o + 149 <= |b| && b[o..o + 149] == f
    ensures ReadU32(b, o + 32) == Some(e.vaaTimestamp) && ReadU32(b, o + 36) == Some(e.info.configId)
    ensures ReadU64(b, o + 41) == Some(e.info.vaaSequence) && ReadU16(b, o + 49) == Some(e.info.sourceChain)
    ensures ReadU64(b, o + 115) == Some(e.info.startSlot) && ReadU64(b, o + 123) == Some(e.info.amountIn)
    ensures ReadU64(b, o + 131) == Some(e.info.securityDeposit) && ReadU64(b, o + 139) == Some(e.info.offerPrice)
    ensures ReadU16(b, o + 147) == Some(e.info.redeemerMessageLen)
  {
    Pow256Widths();
    ReadInside(b, o, f, 32, e.vaaTimestamp, 4);
    ReadInside(b, o, f, 36, e.info.configId, 4);
    ReadInside(b, o, f, 41, e.info.vaaSequence, 8);
    ReadInside(b, o, f, 49, e.info.sourceChain, 2);
    ReadInside(b, o, f, 115, e.info.startSlot, 8);
    ReadInside(b, o, f, 123, e.info.amountIn, 8);
    ReadInside(b, o, f, 131, e.info.securityDeposit, 8);
    ReadInside(b, o, f, 139, e.info.offerPrice, 8);
    ReadInside(b, o, f, 147, e.info.redeemerMessageLen, 2);
  }

  lemma ReadEntryKeys(b: bytes, o: nat, f: bytes, e: AuctionEntry)
    requires Layout(f, e) && o + 149 <= |b| && b[o..o + 149] == f
    ensures b[o..o + 32] == e.vaaHash && b[o + 40] == e.info.custodyTokenBump
    ensures b[o + 51..o + 83] == e.info.bestOfferToken && b[o + 83..o + 115] == e.info.initialOfferToken
  {
    SliceInside(b, o, 149, 0, 32);
    SliceInside(b, o, 149, 51, 83);
    SliceInside(b, o, 149, 83, 115);
    assert b[o + 40] == b[o..o + 149][40];
  }

  /** All fields but the asset info are read back from where a record starts. */
  lemma ReadEntryFields(b: bytes, o: nat, f: bytes, e: AuctionEntry)
    requires Layout(f, e) && o + 149 <= |b| && b[o..o + 149] == f
    requires !IsSet(b, o + 149) || ReadU64(b, o + 150).Some?
    ensures ReadEntry(b, o) == Some(e.(info := e.info.(destinationAssetInfo :=
      if IsSet(b, o + 149) then Some(DestinationAssetInfo(b[o + 150], ReadU64(b, o + 150).value)) else None)))
  {
    hide FromLE;
    ReadEntryNumbers(b, o, f, e);
    ReadEntryKeys(b, o, f, e);
  }

  lemma RecordAt(before: bytes, f: bytes, rest: bytes)
    ensures var b, o := before + (f + rest), |before|;
      b[o..o + |f|] == f && b[o + |f|..] == rest
  {
  }

  ghost predicate NoAssetInfo(entries: seq<AuctionEntry>) {
    forall e :: e in entries ==> EntrySized(e) && e.info.destinationAssetInfo.None?
  }

  lemma {:induction false} EncodedLength(entries: seq<AuctionEntry>)
    requires NoAssetInfo(entries)
    ensures |EncodeEntries(entries)| == |entries| * ENTRY
  {
    if entries != [] {
      EncodedLength(entries[..|entries| - 1]);
      EntryFieldsLayout(entries[|entries| - 1]);
    }
  }

  lemma {:induction false} ReadEncodedEntries(b: bytes, prefix: bytes, entries: seq<AuctionEntry>, tail: bytes)
    requires NoAssetInfo(entries) && b == prefix + EncodeEntries(entries) + tail
    ensures ReadEntries(b, |prefix|, |entries|) == Some(entries)
  {
    hide ReadEntry, EncodeEntry;
    if entries != [] {
      var init, last := entries[..|entries| - 1], entries[|entries| - 1];
      var before, record := prefix + EncodeEntries(init), EncodeEntry(last);
      Regroup(prefix, EncodeEntries(init), record, tail);
      ReadEncodedEntries(b, prefix, init, record + tail);
      EncodedLength(init);
      ReadEncodedEntry(b, before, last, tail);
      ReadEntriesStep(b, |prefix|, |init|, |before|, init, last);
      assert init + [last] == entries;
    }
  }

  lemma Regroup(a: bytes, b: bytes, c: bytes, d: bytes)
    ensures a + (b + c) + d == (a + b) + (c + d)
  {
  }

  lemma ReadEntriesStep(b: bytes, o: nat, n: nat, at: nat, init: seq<AuctionEntry>, last: AuctionEntry)
    requires ReadEntries(b, o, n) == Some(init) && at == o + n * ENTRY && ReadEntry(b, at) == Some(last)
    ensures ReadEntries(b, o, n + 1) == Some(init + [last])
  {
    hide ReadEntry;
  }

  lemma ReadEncodedEntry(b: bytes, before: bytes, e: AuctionEntry, tail: bytes)
    requires EntrySized(e) && e.info.destinationAssetInfo.None?
    requires b == before + (EncodeEntry(e) + tail)
    ensures ReadEntry(b, |before|) == Some(e)
  {
    var f := EncodeEntryFields(e);
    EntryFieldsLayout(e);
    RecordAt(before, f, [0] + tail);
    assert EncodeEntry(e) + tail == f + ([0] + tail);
    assert b[|before| + 149] == b[|before| + 149..][0] == 0;
    ReadEntryFields(b, |before|, f, e);
  }

  ghost function EncodeHeader(h: AuctionHistory): bytes {
    DISCRIMINATOR + LE(h.id, 8) + EncodeTimestamp(h.minTimestamp) + EncodeTimestamp(h.maxTimestamp) + LE(|h.data|, 4)
  }

  lemma HeaderLayout(id: bytes, min: bytes, max: bytes, count: bytes, f: bytes)
    requires |id| == 8 && |min| == |max| == |count| == 4
    requires f == DISCRIMINATOR + id + ([1] + min) + ([1] + max) + count
    ensures |f| == HEADER && f[0..8] == DISCRIMINATOR && f[8..16] == id
    ensures f[16] == 1 && f[17..21] == min && f[21] == 1 && f[22..26] == max && f[26..30] == count
  {
    var upToId := DISCRIMINATOR + id;
    var upToMin := upToId + ([1] + min);
    var upToMax := upToMin + ([1] + max);
    assert f[..26] == upToMax && f[26..30] == count;
    assert upToMax[..21] == upToMin && upToMax[21] == 1 && upToMax[22..26] == max;
    assert upToMin[..16] == upToId && upToMin[16] == 1 && upToMin[17..21] == min;
    assert f[22..26] == f[..26][22..26] && f[..21] == f[..26][..21] && f[21] == f[..26][21];
    assert f[17..21] == f[..21][17..21] && f[..16] == f[..21][..16] && f[16] == f[..21][16];
    assert f[0..8] == f[..16][0..8] && f[8..16] == f[..16][8..16];
  }

  /** With both timestamps set the header is 30 bytes and read back from them. */
  lemma ReadEncodedHeader(h: AuctionHistory, b: bytes)
    requires Serialisable(h) && h.minTimestamp.Some? && h.maxTimestamp.Some?
    requires EncodeHeader(h) <= b
    ensures |EncodeHeader(h)| == HEADER && Slice(b, 0, 8) == DISCRIMINATOR
    ensures ReadU64(b, 8) == Some(h.id) && ReadU32(b, 26) == Some(|h.data|)
    ensures IsSet(b, 16) && ReadU32(b, 17) == h.minTimestamp && IsSet(b, 21) && ReadU32(b, 22) == h.maxTimestamp
  {
    var f := EncodeHeader(h);
    Pow256Widths();
    HeaderLayout(LE(h.id, 8), LE(h.minTimestamp.value, 4), LE(h.maxTimestamp.value, 4), LE(|h.data|, 4), f);
    assert b[0..30] == f;
    ReadInside(b, 0, f, 8, h.id, 8);
    ReadInside(b, 0, f, 17, h.minTimestamp.value, 4);
    ReadInside(b, 0, f, 22, h.maxTimestamp.value, 4);
    ReadInside(b, 0, f, 26, |h.data|, 4);
    assert b[16] == f[16] && b[21] == f[21] && b[0..8] == f[0..8];
  }

  /** Where a history with both timestamps has its header and each of its records. */
  lemma HistoryPositions(h: AuctionHistory, i: nat)
    requires Serialisable(h) && h.minTimestamp.Some? && h.maxTimestamp.Some? && NoAssetInfo(h.data) && i < |h.data|
    ensures var b := EncodeHistory(h);
      && |b| == 30 + 150 * |h.data|
      && b[0..8] == [149, 208, 45, 154, 47, 248, 102, 245] && b[8..16] == LE(h.id, 8)
      && b[16] == 1 && b[17..21] == LE(h.minTimestamp.value, 4)
      && b[21] == 1 && b[22..26] == LE(h.maxTimestamp.value, 4) && b[26..30] == LE(|h.data|, 4)
      && b[30 + 150 * i..30 + 150 * i + 149] == EncodeEntryFields(h.data[i]) && b[30 + 150 * i + 149] == 0
  {
    hide LE, EncodeEntryFields, EncodeEntries, EncodeEntry;
    var header, records := EncodeHeader(h), EncodeEntries(h.data);
    HeaderLayout(LE(h.id, 8), LE(h.minTimestamp.value, 4), LE(h.maxTimestamp.value, 4), LE(|h.data|, 4), header);
    assert EncodeHistory(h) == header + records;
    EncodedLength(h.data);
    RecordInPlace(h.data, i);
    FieldsInFront(header, records, 0, 8);
    FieldsInFront(header, records, 8, 16);
    FieldsInFront(header, records, 17, 21);
    FieldsInFront(header, records, 22, 26);
    FieldsInFront(header, records, 26, 30);
    assert (header + records)[30 + 150 * i..30 + 150 * i + 149] == records[150 * i..150 * i + 149];
  }

  lemma {:induction false} RecordInPlace(entries: seq<AuctionEntry>, i: nat)
    requires NoAssetInfo(entries) && i < |entries|
    ensures var b := EncodeEntries(entries);
      && 150 * i + 150 <= |b| && b[150 * i..150 * i + 149] == EncodeEntryFields(entries[i]) && b[150 * i + 149] == 0
  {
    hide EncodeEntryFields, EncodeEntry;
    var init, last := entries[..|entries| - 1], entries[|entries| - 1];
    var before, record := EncodeEntries(init), EncodeEntry(last);
    assert EncodeEntries(entries) == before + record;
    EncodedLength(init);
    PlainRecord(last);
    if i < |init| {
      RecordInPlace(init, i);
      FieldsInFront(before, record, 150 * i, 150 * i + 149);
    } else {
      assert (before + record)[|before|..|before| + 149] == record[..149];
      assert (before + record)[|before| + 149] == record[149];
    }
  }

  lemma PlainRecord(e: AuctionEntry)
    requires EntrySized(e) && e.info.destinationAssetInfo.None?
    ensures var b := EncodeEntry(e); |b| == 150 && b[..149] == EncodeEntryFields(e) && b[149] == 0
  {
    EntryFieldsLayout(e);
  }

  /** The reader recovers every history whose two timestamps are set and whose entries carry
      no asset info, whatever follows it in the account. */
  lemma HistoryRoundTrip(h: AuctionHistory, tail: bytes)
    requires Serialisable(h) && h.minTimestamp.Some? && h.maxTimestamp.Some? && NoAssetInfo(h.data)
    ensures ReadHistory(EncodeHistory(h) + tail) == Some(h)
  {
    hide ReadEntry, EncodeEntry, FromLE, LE;
    var b := EncodeHistory(h) + tail;
    assert b == EncodeHeader(h) + EncodeEntries(h.data) + tail;
    ReadEncodedHeader(h, b);
    ReadEncodedEntries(b, EncodeHeader(h), h.data, tail);
  }

  lemma {:induction false} ReadEntriesCount(b: bytes, o: nat, n: nat)
    requires ReadEntries(b, o, n).Some?
    ensures |ReadEntries(b, o, n).value| == n
  {
    hide ReadEntry;
    if n > 0 {
      ReadEntriesCount(b, o, n - 1);
    }
  }

  // ------------------------------------------------------------------ what the reader accepts

  /** A record with these values lies at `o`, where the reader expects them. */
  ghost predicate Stored(b: bytes, o: nat, e: AuctionEntry) {
    && EntrySized(e) && o + 149 <= |b| && b[o..o + 149] == EncodeEntryFields(e)
    && match e.info.destinationAssetInfo
       case None => !IsSet(b, o + 149)
       case Some(d) =>
         && IsSet(b, o + 149) && o + 158 <= |b|
         && b[o + 150] == d.custodyTokenBump && b[o + 150..o + 158] == LE(d.amountOut, 8)
  }

  ghost predicate AllStored(b: bytes, o: nat, entries: seq<AuctionEntry>) {
    forall i :: 0 <= i < |entries| ==> Stored(b, o + i * ENTRY, entries[i])
  }

  ghost predicate TimestampStored(b: bytes, o: nat, t: Option<u32>)
    requires o + 5 <= |b|
  {
    match t
    case None => b[o] != 1
    case Some(v) => b[o] == 1 && b[o + 1..o + 5] == LE(v, 4)
  }

  ghost predicate HeaderStored(b: bytes, h: AuctionHistory) {
    && HEADER <= |b| && b[0..8] == DISCRIMINATOR && b[8..16] == LE(h.id, 8)
    && TimestampStored(b, 16, h.minTimestamp) && TimestampStored(b, 21, h.maxTimestamp)
    && |h.data| <= U32_MAX && b[26..30] == LE(|h.data|, 4)
  }

  lemma ReadIff(b: bytes, o: nat, n: nat, width: nat)
    requires n < Pow256(width)
    ensures ReadLE(b, o, width) == Some(n) <==> o + width <= |b| && b[o..o + width] == LE(n, width)
  {
    LERoundTrip(n, width);
    if o + width <= |b| {
      FromLERoundTrip(b[o..o + width]);
    }
  }

  lemma LayoutIsEncoding(f: bytes, e: AuctionEntry)
    requires Layout(f, e) && EntrySized(e)
    ensures f == EncodeEntryFields(e)
  {
    hide LE;
    assert f[0..36] == f[0..32] + f[32..36];
    assert f[0..40] == f[0..36] + f[36..40];
    assert f[0..41] == f[0..40] + [f[40]];
    assert f[0..49] == f[0..41] + f[41..49];
    assert f[0..51] == f[0..49] + f[49..51];
    assert f[0..83] == f[0..51] + f[51..83];
    assert f[0..115] == f[0..83] + f[83..115];
    assert f[0..123] == f[0..115] + f[115..123];
    assert f[0..131] == f[0..123] + f[123..131];
    assert f[0..139] == f[0..131] + f[131..139];
    assert f[0..147] == f[0..139] + f[139..147];
    assert f == f[0..147] + f[147..149];
  }

  lemma FieldIs(b: bytes, o: nat, x: nat, n: nat, width: nat)
    requires o + 149 <= |b| && x + width <= 149 && n < Pow256(width)
    ensures ReadLE(b, o + x, width) == Some(n) <==> b[o..o + 149][x..x + width] == LE(n, width)
  {
    hide FromLE, LE;
    ReadIff(b, o + x, n, width);
    SliceInside(b, o, 149, x, x + width);
  }

  /** What was read is laid out where it was read from. */
  lemma ReadEntryLayout(b: bytes, o: nat, e: AuctionEntry)
    requires ReadEntry(b, o) == Some(e)
    ensures EntrySized(e) && o + 149 <= |b| && Layout(b[o..o + 149], e)
  {
    hide FromLE, LE;
    Pow256Widths();
    FieldIs(b, o, 32, e.vaaTimestamp, 4);
    FieldIs(b, o, 36, e.info.configId, 4);
    FieldIs(b, o, 41, e.info.vaaSequence, 8);
    FieldIs(b, o, 49, e.info.sourceChain, 2);
    FieldIs(b, o, 115, e.info.startSlot, 8);
    FieldIs(b, o, 123, e.info.amountIn, 8);
    FieldIs(b, o, 131, e.info.securityDeposit, 8);
    FieldIs(b, o, 139, e.info.offerPrice, 8);
    FieldIs(b, o, 147, e.info.redeemerMessageLen, 2);
    SliceInside(b, o, 149, 0, 32);
    SliceInside(b, o, 149, 51, 83);
    SliceInside(b, o, 149, 83, 115);
  }

  lemma ReadEntryIff(b: bytes, o: nat, e: AuctionEntry)
    ensures ReadEntry(b, o) == Some(e) <==> Stored(b, o, e)
  {
    hide FromLE, LE;
    Pow256Widths();
    if ReadEntry(b, o) == Some(e) {
      ReadEntryLayout(b, o, e);
      LayoutIsEncoding(b[o..o + 149], e);
      if e.info.destinationAssetInfo.Some? {
        ReadIff(b, o + 150, e.info.destinationAssetInfo.value.amountOut, 8);
      }
    }
    if Stored(b, o, e) {
      EntryFieldsLayout(e);
      if e.info.destinationAssetInfo.Some? {
        ReadIff(b, o + 150, e.info.destinationAssetInfo.value.amountOut, 8);
      }
      ReadEntryFields(b, o, EncodeEntryFields(e), e);
    }
  }

  lemma {:induction false} ReadEntriesIff(b: bytes, o: nat, entries: seq<AuctionEntry>)
    ensures ReadEntries(b, o, |entries|) == Some(entries) <==> AllStored(b, o, entries)
  {
    hide ReadEntry, Stored;
    if entries != [] {
      var n := |entries| - 1;
      var init, last := entries[..n], entries[n];
      ReadEntriesIff(b, o, init);
      ReadEntryIff(b, o + n * ENTRY, last);
      assert entries == init + [last];
      if ReadEntries(b, o, n + 1) == Some(entries) {
        ReadEntriesCount(b, o, n);
        var before := ReadEntries(b, o, n).value;
        assert (before + [ReadEntry(b, o + n * ENTRY).value])[..n] == before;
      }
    }
  }

  /** Which history the reader returns for which bytes: exactly the one whose values lie at the
      fixed places it reads from. So it is its own inverse there, and it throws exactly on bytes
      that lay out no history. */
  lemma ReaderIsExact(b: bytes, h: AuctionHistory)
    ensures ReadHistory(b) == Some(h) <==> HeaderStored(b, h) && AllStored(b, HEADER, h.data)
  {
    hide FromLE, LE, ReadEntry, AllStored;
    Pow256Widths();
    ReadIff(b, 8, h.id, 8);
    TimestampIff(b, 16, h.minTimestamp);
    TimestampIff(b, 21, h.maxTimestamp);
    ReadEntriesIff(b, HEADER, h.data);
    if ReadHistory(b) == Some(h) {
      ReadEntriesCount(b, HEADER, ReadU32(b, 26).value);
    }
    if |h.data| <= U32_MAX {
      ReadIff(b, 26, |h.data|, 4);
    }
  }

  lemma TimestampIff(b: bytes, o: nat, t: Option<u32>)
    ensures o + 5 <= |b| ==> ((if IsSet(b, o) then ReadU32(b, o + 1) else None) == t <==> TimestampStored(b, o, t))
  {
    Pow256Widths();
    if t.Some? {
      ReadIff(b, o + 1, t.value, 4);
    }
  }

  // -------------------------------------------------------------------------- account images

  /** An account as it is on chain: the history, then zeros, and never less than `START`. */
  ghost predicate IsImage(b: bytes, h: AuctionHistory) {
    START <= |b| && EncodeHistory(h) <= b && b[|EncodeHistory(h)|..] == Zeros(|b| - |EncodeHistory(h)|)
  }

  /** The header is four bytes shorter for each timestamp that is not set. */
  ghost function Shift(h: AuctionHistory): nat {
    (if h.minTimestamp.None? then 4 else 0) + (if h.maxTimestamp.None? then 4 else 0)
  }

  /** `shift` bytes later the same record is found again. */
  ghost predicate RepeatsAfter(b: bytes, at: nat, shift: nat) {
    && at + shift + 149 <= |b| && b[at + shift..at + shift + 149] == b[at..at + 149]
    && !IsSet(b, at + shift + 149)
  }

  /** The reader looks for the count and the records where they would be behind a full header. */
  ghost predicate FoundAgain(b: bytes, h: AuctionHistory)
    requires HEADER <= |b|
  {
    b[26..30] == LE(|h.data|, 4) && AllRepeatAfter(b, HEADER - Shift(h), |h.data|, Shift(h))
  }

  ghost predicate AllRepeatAfter(b: bytes, at: nat, n: nat, shift: nat) {
    forall i :: 0 <= i < n ==> RepeatsAfter(b, at + i * ENTRY, shift)
  }

  /** Which account images are read back, exactly: with both timestamps set, all of them;
      without the later one, those whose bytes happen to repeat after the missing ones. */
  lemma ImageRecoveredIff(b: bytes, h: AuctionHistory)
    requires IsImage(b, h) && NoAssetInfo(h.data) && |h.data| < 0x100_0000
    ensures ReadHistory(b) == Some(h)
      <==> || (h.minTimestamp.Some? && h.maxTimestamp.Some?)
           || (h.maxTimestamp.None? && FoundAgain(b, h))
  {
    hide ReadHistory, LE, EncodeHistory, EncodeHeader, EncodeEntries, AllStored, AllRepeatAfter, HeaderStored;
    var header, tail := EncodeHeader(h), b[|EncodeHistory(h)|..];
    ImageSplits(b, h);
    if h.minTimestamp.Some? && h.maxTimestamp.Some? {
      HistoryRoundTrip(h, tail);
    } else {
      ShortHeader(b, h);
      ReadEncodedEntries(b, header, h.data, tail);
      ReadEntriesIff(b, |header|, h.data);
      AllStoredLater(b, |header|, h.data, Shift(h));
      ReaderIsExact(b, h);
    }
  }

  lemma ImageSplits(b: bytes, h: AuctionHistory)
    requires EncodeHistory(h) <= b
    ensures var tail := b[|EncodeHistory(h)|..];
      b == EncodeHistory(h) + tail == EncodeHeader(h) + EncodeEntries(h.data) + tail
    ensures EncodeHeader(h) <= b
  {
    hide LE, EncodeEntries, EncodeTimestamp;
    assert EncodeHistory(h) == EncodeHeader(h) + EncodeEntries(h.data);
  }

  lemma AllStoredLater(b: bytes, at: nat, entries: seq<AuctionEntry>, shift: nat)
    requires AllStored(b, at, entries) && NoAssetInfo(entries)
    ensures AllStored(b, at + shift, entries) <==> AllRepeatAfter(b, at, |entries|, shift)
  {
    hide Stored, RepeatsAfter;
    forall i | 0 <= i < |entries|
      ensures Stored(b, at + shift + i * ENTRY, entries[i]) <==> RepeatsAfter(b, at + i * ENTRY, shift)
    {
      StoredLater(b, at + i * ENTRY, entries[i], shift);
      assert at + i * ENTRY + shift == at + shift + i * ENTRY;
    }
    if AllStored(b, at + shift, entries) {
      forall i | 0 <= i < |entries| ensures RepeatsAfter(b, at + i * ENTRY, shift) {
        assert Stored(b, at + shift + i * ENTRY, entries[i]);
      }
    }
  }

  lemma StoredLater(b: bytes, at: nat, e: AuctionEntry, shift: nat)
    requires Stored(b, at, e) && e.info.destinationAssetInfo.None?
    ensures Stored(b, at + shift, e) <==> RepeatsAfter(b, at, shift)
  {
    hide EncodeEntryFields;
  }

  /** A header with a timestamp missing. When that is the earlier one, the byte before the
      count would have to be both the later one's top byte and its tag. */
  lemma ShortHeader(b: bytes, h: AuctionHistory)
    requires HEADER <= |b| && EncodeHeader(h) <= b && |h.data| < 0x100_0000
    requires h.minTimestamp.None? || h.maxTimestamp.None?
    ensures |EncodeHeader(h)| == HEADER - Shift(h)
    ensures HeaderStored(b, h) <==> h.maxTimestamp.None? && b[26..30] == LE(|h.data|, 4)
  {
    hide LE;
    var f, count := EncodeHeader(h), LE(|h.data|, 4);
    assert f[0..8] == DISCRIMINATOR && f[8..16] == LE(h.id, 8);
    assert b[0..8] == f[0..8] && b[8..16] == f[8..16];
    TopByte(|h.data|);
    if h.minTimestamp.Some? {
      assert f[16] == 1 && f[17..21] == LE(h.minTimestamp.value, 4) && f[21] == 0;
      assert b[16] == f[16] && b[17..21] == f[17..21] && b[21] == f[21];
    } else if h.maxTimestamp.None? {
      assert f[16] == 0 && f[21] == count[3];
      assert b[16] == f[16] && b[21] == f[21];
    } else {
      var v := h.maxTimestamp.value;
      assert f[21] == LE(v, 4)[3] && f[22..26] == count;
      assert b[21] == f[21] && b[22..26] == f[22..26];
      Pow256Widths();
      LERoundTrip(v, 4);
      LERoundTrip(|h.data|, 4);
      assert LE(v, 4) == count ==> v == |h.data|;
    }
  }

  /** No account has so many entries that the top byte of their number is used. */
  lemma TopByte(n: nat)
    requires n < 0x100_0000
    ensures LE(n, 4)[3] == 0
  {
    assert LE(n, 4)[3] == LE(n / 256, 3)[2] == LE(n / 256 / 256, 2)[1] == LE(n / 256 / 256 / 256, 1)[0];
  }

  /** Without entries the zeros after a short header are the count the reader looks for. */
  lemma ImageWithoutEntries(b: bytes, h: AuctionHistory)
    requires IsImage(b, h) && h.data == []
    ensures ReadHistory(b) == Some(h) <==> h.minTimestamp.Some? || h.maxTimestamp.None?
  {
    hide ReadHistory, LE, EncodeTimestamp;
    ImageRecoveredIff(b, h);
    if h.maxTimestamp.None? {
      ShortHeader(b, h);
      assert EncodeHistory(h) == EncodeHeader(h);
      CountInPadding(b, HEADER - Shift(h));
    }
  }

  lemma CountInPadding(b: bytes, at: nat)
    requires at <= 26 && HEADER <= |b| && b[at..] == Zeros(|b| - at)
    ensures b[26..30] == LE(0, 4)
  {
    assert LE(0, 4) == [0, 0, 0, 0];
    forall i | 26 <= i < 30 ensures b[i] == 0 {
      assert b[i] == b[at..][i - at];
    }
  }

  /** So a new account, which has no timestamps, no entries and eight zeros at its end, is
      read back. */
  lemma FreshAccountRoundTrip(b: bytes, id: u64)
    requires IsImage(b, AuctionHistory(id, None, None, []))
    ensures ReadHistory(b) == Some(AuctionHistory(id, None, None, []))
  {
    hide ReadHistory;
    ImageWithoutEntries(b, AuctionHistory(id, None, None, []));
  }

  /** With both timestamps set, whatever asset info there is: an account is read back exactly
      when every record lies where records without asset info would. */
  lemma TimedRecoveredIff(h: AuctionHistory, tail: bytes)
    requires Serialisable(h) && h.minTimestamp.Some? && h.maxTimestamp.Some?
    ensures var b := EncodeHistory(h) + tail;
      ReadHistory(b) == Some(h) <==> AllStored(b, HEADER, h.data)
  {
    hide ReadHistory, AllStored, EncodeEntries, LE;
    var b := EncodeHistory(h) + tail;
    assert b == EncodeHeader(h) + EncodeEntries(h.data) + tail;
    HeaderIsStored(h, b);
    ReaderIsExact(b, h);
  }

  lemma HeaderIsStored(h: AuctionHistory, b: bytes)
    requires Serialisable(h) && h.minTimestamp.Some? && h.maxTimestamp.Some? && EncodeHeader(h) <= b
    ensures HeaderStored(b, h)
  {
    hide LE;
    var f := EncodeHeader(h);
    HeaderLayout(LE(h.id, 8), LE(h.minTimestamp.value, 4), LE(h.maxTimestamp.value, 4), LE(|h.data|, 4), f);
    assert b[0..30] == f;
    assert b[0..8] == f[0..8] && b[8..16] == f[8..16] && b[17..21] == f[17..21];
    assert b[22..26] == f[22..26] && b[26..30] == f[26..30] && b[16] == f[16] && b[21] == f[21];
  }

  /** The program never stores asset info. Were it on the last entry, it would be recovered
      exactly when all bytes of the amount equal the bump, because both are read from the same
      place, whatever follows in the account. */
  lemma AssetInfoRecoveredIff(h: AuctionHistory, d: DestinationAssetInfo, tail: bytes)
    requires Serialisable(h) && h.minTimestamp.Some? && h.maxTimestamp.Some? && h.data != []
    requires NoAssetInfo(h.data[..|h.data| - 1]) && h.data[|h.data| - 1].info.destinationAssetInfo == Some(d)
    ensures ReadHistory(EncodeHistory(h) + tail) == Some(h)
      <==> LE(d.amountOut, 8) == seq(8, _ => d.custodyTokenBump)
  {
    hide ReadEntry, EncodeEntry, FromLE, LE;
    var init, last := h.data[..|h.data| - 1], h.data[|h.data| - 1];
    assert h.data == init + [last];
    var header, b := EncodeHeader(h), EncodeHistory(h) + tail;
    var before := header + EncodeEntries(init);
    Regroup(header, EncodeEntries(init), EncodeEntry(last), tail);
    assert b == before + (EncodeEntry(last) + tail);
    ReadEncodedHeader(h, b);
    ReadEncodedEntries(b, header, init, EncodeEntry(last) + tail);
    EncodedLength(init);
    ReadEncodedAssetInfo(b, before, last, d, tail);
    ReadWithLast(h, b, init, last, |before|, ReadEntry(b, |before|).value);
  }

  lemma ReadWithLast(
    h: AuctionHistory, b: bytes, init: seq<AuctionEntry>, last: AuctionEntry, at: nat, read: AuctionEntry)
    requires Slice(b, 0, 8) == DISCRIMINATOR && ReadU64(b, 8) == Some(h.id) && ReadU32(b, 26) == Some(|h.data|)
    requires IsSet(b, 16) && ReadU32(b, 17) == h.minTimestamp && IsSet(b, 21) && ReadU32(b, 22) == h.maxTimestamp
    requires h.data == init + [last] && ReadEntries(b, HEADER, |init|) == Some(init)
    requires at == HEADER + |init| * ENTRY && ReadEntry(b, at) == Some(read)
    ensures ReadHistory(b) == Some(h) <==> read == last
  {
    hide ReadEntry, FromLE;
    ReadEntriesStep(b, HEADER, |init|, at, init, read);
    assert (init + [read])[|init|] == read && h.data[|init|] == last;
  }

  lemma ReadEncodedAssetInfo(b: bytes, before: bytes, e: AuctionEntry, d: DestinationAssetInfo, tail: bytes)
    requires EntrySized(e) && e.info.destinationAssetInfo == Some(d) && b == before + (EncodeEntry(e) + tail)
    ensures var read := ReadEntry(b, |before|);
      read.Some? && (read.value == e <==> LE(d.amountOut, 8) == seq(8, _ => d.custodyTokenBump))
  {
    var f, amount := EncodeEntryFields(e), LE(d.amountOut, 8);
    hide LE;
    EntryFieldsLayout(e);
    assert EncodeEntry(e) + tail == f + ([1, d.custodyTokenBump] + amount + tail);
    AssetInfoAt(before, f, d.custodyTokenBump, amount, tail);
    ReadEntryFields(b, |before|, f, e);
    SharedPlace(d.amountOut, d.custodyTokenBump);
  }

  lemma AssetInfoAt(before: bytes, f: bytes, bump: byte, amount: bytes, tail: bytes)
    requires |amount| == 8
    ensures var b, o := before + (f + ([1, bump] + amount + tail)), |before| + |f|;
      && b[|before|..o] == f && b[o] == 1 && b[o + 1] == bump
      && o + 10 <= |b| && b[o + 1..o + 9] == [bump] + amount[..7]
  {
    var rest := [1, bump] + amount + tail;
    RecordAt(before, f, rest);
    assert rest[0] == 1 && rest[1] == bump && rest[1..9] == [bump] + amount[..7];
    var b, o := before + (f + rest), |before| + |f|;
    assert b[o..] == rest && b[o] == b[o..][0] && b[o + 1] == b[o..][1];
    assert b[o + 1..o + 9] == b[o..][1..9];
  }

  lemma SharedPlace(n: u64, bump: byte)
    ensures FromLE([bump] + LE(n, 8)[..7]) == n <==> LE(n, 8) == seq(8, _ => bump)
  {
    var amount, shifted := LE(n, 8), [bump] + LE(n, 8)[..7];
    Pow256Widths();
    LERoundTrip(n, 8);
    FromLERoundTrip(shifted);
    assert FromLE(shifted) == n <==> shifted == amount;
    assert shifted[0] == bump && forall i :: 0 <= i < 7 ==> shifted[i + 1] == amount[i];
    if shifted == amount {
      assert amount[0] == bump && amount[1] == bump && amount[2] == bump && amount[3] == bump;
      assert amount[4] == bump && amount[5] == bump && amount[6] == bump && amount[7] == bump;
    }
  }
}
