/** How the solver splits the posting of a message into transactions: an in-place patch of
    each signature-verification instruction, and a loop that takes instructions two at a time. */
module PostVaa {
  import opened Bytes
  import opened MachineInts
  import opened Wrappers

  // --------------------------------------------------------------------- the in-place patch

  /** The three instruction-index bytes of each of `n` signature offset records. */
  ghost predicate Patched(position: int, n: nat) {
    exists i :: 0 <= i < n && InRecord(position, i)
  }

  ghost predicate InRecord(position: int, i: nat) {
    position == 3 + 11 * i || position == 6 + 11 * i || position == 11 + 11 * i
  }

  ghost function PatchedPositions(n: nat): set<int> {
    set position | 0 <= position < 11 * n + 1 && Patched(position, n)
  }

  /** What the patch leaves in a buffer: only the patched positions inside it change. */
  ghost function PatchedBytes(data: bytes, n: nat, index: byte): bytes {
    seq(|data|, j requires 0 <= j < |data| => if Patched(j, n) then index else data[j])
  }

  /** The whole patch fits when the last record does. */
  predicate PatchFits(length: nat, n: nat) {
    n == 0 || 11 * n < length
  }

  /** Throws on an empty buffer, and part-way when a record reaches past the end; the bytes in
      range are patched either way. */
  method UnsafeFixSigVerifyIx(data: array<byte>, sigVerifyIxIndex: byte) returns (ok: bool)
    modifies data
    ensures data.Length == 0 ==> !ok
    ensures data.Length > 0 ==>
      var n := old(data[0]);
      && ok == PatchFits(data.Length, n)
      && data[..] == PatchedBytes(old(data[..]), n, sigVerifyIxIndex)
  {
    if data.Length == 0 { return false; }
    var numSignatures := data[0];
    for i := 0 to numSignatures
      invariant i > 0 ==> 11 * i < data.Length
      invariant data[..] == PatchedBytes(old(data[..]), i, sigVerifyIxIndex)
    {
      PatchNext(old(data[..]), i, numSignatures, sigVerifyIxIndex);
      var fits := PatchRecord(data, i, sigVerifyIxIndex);
      assert data[..] == PatchedBytes(old(data[..]), i + 1, sigVerifyIxIndex);
      if !fits { return false; }
    }
    return true;
  }

  /** The three writes of one record, each of which throws past the end. */
  method PatchRecord(data: array<byte>, i: nat, sigVerifyIxIndex: byte) returns (fits: bool)
    modifies data
    ensures fits <==> 11 + 11 * i < data.Length
    ensures forall j :: 0 <= j < data.Length ==>
      data[j] == if InRecord(j, i) then sigVerifyIxIndex else old(data[j])
  {
    var offsetSpan := 11;
    if 3 + i * offsetSpan >= data.Length { return false; }
    data[3 + i * offsetSpan] := sigVerifyIxIndex;
    if 6 + i * offsetSpan >= data.Length { return false; }
    data[6 + i * offsetSpan] := sigVerifyIxIndex;
    if 11 + i * offsetSpan >= data.Length { return false; }
    data[11 + i * offsetSpan] := sigVerifyIxIndex;
    return true;
  }

  /** One more record adds its three positions, and later ones lie past any end it reaches. */
  lemma PatchNext(data: bytes, i: nat, n: nat, index: byte)
    requires i < n
    ensures forall j :: 0 <= j < |data| ==>
      PatchedBytes(data, i + 1, index)[j] == if InRecord(j, i) then index else PatchedBytes(data, i, index)[j]
    ensures |data| <= 11 + 11 * i ==> PatchedBytes(data, n, index) == PatchedBytes(data, i + 1, index)
  {
    forall j ensures Patched(j, i + 1) <==> Patched(j, i) || InRecord(j, i) {
    }
    if |data| <= 11 + 11 * i {
      forall j | 0 <= j < |data| ensures Patched(j, n) <==> Patched(j, i + 1) {
        if k :| 0 <= k < n && InRecord(j, k) {
          assert k <= i;
        }
      }
    }
  }

  /** The records do not overlap: three distinct positions per signature. */
  lemma {:induction false} PositionsAreDistinct(n: nat)
    ensures |PatchedPositions(n)| == 3 * n
  {
    if n == 0 {
      assert PatchedPositions(0) == {};
    } else {
      var i := n - 1;
      PositionsAreDistinct(i);
      var added := {3 + 11 * i, 6 + 11 * i, 11 + 11 * i};
      forall p ensures p in PatchedPositions(n) <==> p in PatchedPositions(i) || p in added {
        OneMoreRecord(p, i);
      }
      assert PatchedPositions(n) == PatchedPositions(i) + added;
      assert PatchedPositions(i) !! added;
    }
  }

  lemma OneMoreRecord(p: int, i: nat)
    ensures Patched(p, i + 1) <==> Patched(p, i) || InRecord(p, i)
    ensures Patched(p, i) ==> 3 <= p < 11 * i + 1
  {
  }

  // ----------------------------------------------------------- the records that are patched

  /** One signature of a secp256k1 instruction of the Solana runtime: where signature, address
      and message are found, each in the data of which instruction of the transaction. */
  datatype SignatureOffsets = SignatureOffsets(
    signatureOffset: u16, signatureInstruction: byte,
    addressOffset: u16, addressInstruction: byte,
    messageOffset: u16, messageSize: u16, messageInstruction: byte)
  {
    function FoundIn(index: byte): SignatureOffsets {
      this.(signatureInstruction := index, addressInstruction := index, messageInstruction := index)
    }
  }

  ghost function EncodeOffsets(r: SignatureOffsets): (b: bytes)
    ensures |b| == 11
  {
    LE(r.signatureOffset, 2) + [r.signatureInstruction] + LE(r.addressOffset, 2) + [r.addressInstruction]
    + LE(r.messageOffset, 2) + LE(r.messageSize, 2) + [r.messageInstruction]
  }

  ghost function EncodeAllOffsets(rs: seq<SignatureOffsets>): (b: bytes)
    ensures |b| == 11 * |rs|
  {
    if rs == [] then [] else EncodeAllOffsets(rs[..|rs| - 1]) + EncodeOffsets(rs[|rs| - 1])
  }

  /** Their number, the records, and the signatures, addresses and message themselves. */
  ghost function EncodeInstruction(rs: seq<SignatureOffsets>, rest: bytes): bytes
    requires |rs| < 256
  {
    [|rs|] + EncodeAllOffsets(rs) + rest
  }

  ghost function AllFoundIn(rs: seq<SignatureOffsets>, index: byte): (out: seq<SignatureOffsets>)
    ensures |out| == |rs| && forall i :: 0 <= i < |rs| ==> out[i] == rs[i].FoundIn(index)
  {
    seq(|rs|, i requires 0 <= i < |rs| => rs[i].FoundIn(index))
  }

  lemma {:induction false} OffsetsByte(rs: seq<SignatureOffsets>, i: nat, k: nat)
    requires i < |rs| && k < 11
    ensures EncodeAllOffsets(rs)[11 * i + k] == EncodeOffsets(rs[i])[k]
  {
    hide EncodeOffsets;
    if i < |rs| - 1 {
      OffsetsByte(rs[..|rs| - 1], i, k);
    }
  }

  lemma FoundInByte(r: SignatureOffsets, index: byte, k: nat)
    requires k < 11
    ensures EncodeOffsets(r.FoundIn(index))[k] == if k == 2 || k == 5 || k == 10 then index else EncodeOffsets(r)[k]
  {
    hide LE;
  }

  /** The patch writes the third, sixth and eleventh byte of each record, and nothing else. */
  lemma PatchedInRecord(i: nat, k: nat, n: nat)
    requires i < n && k < 11
    ensures Patched(1 + 11 * i + k, n) <==> k == 2 || k == 5 || k == 10
  {
    if k == 2 || k == 5 || k == 10 {
      assert InRecord(1 + 11 * i + k, i);
    }
  }

  lemma PatchFitsIff(length: nat, n: nat)
    ensures PatchFits(length, n)
      <==> forall i :: 0 <= i < n ==> 3 + 11 * i < length && 6 + 11 * i < length && 11 + 11 * i < length
  {
    if n > 0 && forall i :: 0 <= i < n ==> 3 + 11 * i < length && 6 + 11 * i < length && 11 + 11 * i < length {
      assert 11 + 11 * (n - 1) < length;
    }
  }

  /** On a well-formed instruction the patch is what it is meant to be: the same records, with
      all three parts found in the given instruction. */
  lemma PatchPointsRecords(rs: seq<SignatureOffsets>, rest: bytes, index: byte)
    requires |rs| < 256
    ensures var data := EncodeInstruction(rs, rest);
      && PatchFits(|data|, |rs|)
      && PatchedBytes(data, |rs|, index) == EncodeInstruction(AllFoundIn(rs, index), rest)
  {
    hide EncodeOffsets, EncodeAllOffsets, Patched;
    var n, out := |rs|, AllFoundIn(rs, index);
    var data, wanted := EncodeInstruction(rs, rest), EncodeInstruction(out, rest);
    forall j | 0 <= j < |data| ensures PatchedBytes(data, n, index)[j] == wanted[j] {
      if j == 0 {
        NotPatched(0, n);
      } else if j < 1 + 11 * n {
        var i, k := (j - 1) / 11, (j - 1) % 11;
        OffsetsByte(rs, i, k);
        OffsetsByte(out, i, k);
        FoundInByte(rs[i], index, k);
        PatchedInRecord(i, k, n);
      } else {
        NotPatched(j, n);
      }
    }
  }

  lemma NotPatched(j: nat, n: nat)
    requires j == 0 || 1 + 11 * n <= j
    ensures !Patched(j, n)
  {
  }

  // ------------------------------------------------------------------------ the pairing loop

  /** An instruction: the program it calls, and data that can be written in place. */
  datatype TransactionInstruction = TransactionInstruction(programId: nat, data: array<byte>)

  /** Popping an empty list yields no instruction. */
  datatype PreparedTransaction =
    | VerifySignatures(sigVerifyIx: TransactionInstruction, verifySigsIx: Option<TransactionInstruction>)
    | PostVaaTx(postIx: TransactionInstruction)

  const SIG_VERIFY_IX_INDEX: byte := 2

  ghost predicate CanPatch(data: bytes) {
    data != [] && PatchFits(|data|, data[0])
  }

  ghost function AfterPatch(data: bytes): bytes {
    if data == [] then [] else PatchedBytes(data, data[0], SIG_VERIFY_IX_INDEX)
  }

  /** The first instruction of each pair is sent third in its transaction, at index 2, and can
      always be patched to say so when it is well-formed. */
  lemma AfterPatchPointsToThird(rs: seq<SignatureOffsets>, rest: bytes)
    requires |rs| < 256
    ensures var data := EncodeInstruction(rs, rest);
      CanPatch(data) && AfterPatch(data) == EncodeInstruction(AllFoundIn(rs, 2), rest)
  {
    hide PatchedBytes, EncodeAllOffsets;
    PatchPointsRecords(rs, rest, 2);
  }

  /** The transactions for a list of instructions, two at a time from the front. */
  ghost function Pairs(ixs: seq<TransactionInstruction>, post: TransactionInstruction): (txs: seq<PreparedTransaction>)
    ensures ixs == [] ==> txs == []
  {
    if ixs == [] then []
    else if |ixs| == 1 then [VerifySignatures(ixs[0], None), PostVaaTx(post)]
    else [VerifySignatures(ixs[0], Some(ixs[1])), PostVaaTx(post)] + Pairs(ixs[2..], post)
  }

  function Reversed<T>(s: seq<T>): (r: seq<T>)
    ensures |r| == |s|
  {
    seq(|s|, i requires 0 <= i < |s| => s[|s| - 1 - i])
  }

  lemma PopReversed<T>(s: seq<T>, n: nat)
    requires n < |s|
    ensures Reversed(s[n..]) == Reversed(s[n + 1..]) + [s[n]]
  {
  }

  /** One round of the loop: the next two instructions, or the last one alone. */
  lemma PairsStep(all: seq<TransactionInstruction>, n: nat, post: TransactionInstruction)
    requires n < |all|
    ensures Pairs(all[n..], post)
      == [VerifySignatures(all[n], if n + 1 < |all| then Some(all[n + 1]) else None), PostVaaTx(post)]
         + Pairs(if n + 1 < |all| then all[n + 2..] else all[n + 1..], post)
  {
    if n + 1 < |all| {
      assert all[n..][2..] == all[n + 2..];
    }
  }

  ghost function DataOf(ixs: seq<TransactionInstruction>): (d: seq<bytes>)
    reads set ix | ix in ixs :: ix.data
    ensures |d| == |ixs| && forall k :: 0 <= k < |ixs| ==> d[k] == ixs[k].data[..]
  {
    if ixs == [] then [] else DataOf(ixs[..|ixs| - 1]) + [ixs[|ixs| - 1].data[..]]
  }

  /** Some instruction among the first `n` that comes first in its pair has this one's buffer. */
  ghost predicate SharesPatched(ixs: seq<TransactionInstruction>, n: nat, k: nat)
    requires k < |ixs|
  {
    exists j :: 0 <= j < n && j < |ixs| && j % 2 == 0 && ixs[j].data == ixs[k].data
  }

  /** The data once the first instruction of each pair among the first `n` is patched, and with
      it whatever shares its buffer. */
  ghost function PatchedUpTo(ixs: seq<TransactionInstruction>, before: seq<bytes>, n: nat): (d: seq<bytes>)
    requires |before| == |ixs|
    ensures |d| == |ixs|
  {
    seq(|ixs|, k requires 0 <= k < |ixs| => if SharesPatched(ixs, n, k) then AfterPatch(before[k]) else before[k])
  }

  /** Every instruction that comes first in its pair can be patched, among the first `n`. */
  ghost predicate FirstsCanPatch(before: seq<bytes>, n: nat) {
    forall k :: 0 <= k < n && k < |before| && k % 2 == 0 ==> CanPatch(before[k])
  }

  /** Patching a buffer twice is patching it once: the number of signatures is not touched. */
  lemma PatchIsIdempotent(data: bytes)
    ensures AfterPatch(AfterPatch(data)) == AfterPatch(data)
    ensures CanPatch(AfterPatch(data)) == CanPatch(data)
  {
    if data != [] {
      assert !Patched(0, data[0]);
      assert AfterPatch(data)[0] == data[0];
    }
  }

  /** Patching the first of the next pair, for which only its current data matters. */
  lemma PatchedNext(ixs: seq<TransactionInstruction>, before: seq<bytes>, n: nat, after: seq<bytes>)
    requires n < |ixs| == |before| == |after| && n % 2 == 0
    requires forall j, k :: 0 <= j < |ixs| && 0 <= k < |ixs| && ixs[j].data == ixs[k].data ==> before[j] == before[k]
    requires var now := PatchedUpTo(ixs, before, n);
      forall k :: 0 <= k < |ixs| ==>
        after[k] == if ixs[k].data == ixs[n].data then AfterPatch(now[n]) else now[k]
    ensures after == PatchedUpTo(ixs, before, n + 1) == PatchedUpTo(ixs, before, n + 2)
  {
    hide AfterPatch, SharesPatched;
    PatchIsIdempotent(before[n]);
    forall k | 0 <= k < |ixs|
      ensures after[k] == PatchedUpTo(ixs, before, n + 1)[k] == PatchedUpTo(ixs, before, n + 2)[k]
    {
      SharesNext(ixs, n, k);
      SharesNext(ixs, n, n);
    }
  }

  lemma SharesNext(ixs: seq<TransactionInstruction>, n: nat, k: nat)
    requires n < |ixs| && k < |ixs| && n % 2 == 0
    ensures SharesPatched(ixs, n + 1, k) <==> SharesPatched(ixs, n, k) || ixs[k].data == ixs[n].data
    ensures SharesPatched(ixs, n + 2, k) <==> SharesPatched(ixs, n + 1, k)
  {
  }

  lemma CanPatchNext(ixs: seq<TransactionInstruction>, before: seq<bytes>, n: nat)
    requires n < |ixs| == |before| && n % 2 == 0
    ensures CanPatch(PatchedUpTo(ixs, before, n)[n]) == CanPatch(before[n])
    ensures FirstsCanPatch(before, n) && CanPatch(before[n]) ==>
      FirstsCanPatch(before, n + 1) && FirstsCanPatch(before, n + 2)
    ensures forall m :: n < m && FirstsCanPatch(before, m) ==> CanPatch(before[n])
  {
    PatchIsIdempotent(before[n]);
  }

  /** The call was aborted by the n-th instruction, after as much of it was patched as fits. */
  ghost predicate StopsAt(ixs: seq<TransactionInstruction>, before: seq<bytes>, after: seq<bytes>, n: nat)
    requires n < |ixs| == |before|
  {
    FirstsCanPatch(before, n) && !CanPatch(before[n]) && after == PatchedUpTo(ixs, before, n + 1)
  }

  lemma Stops(ixs: seq<TransactionInstruction>, before: seq<bytes>, after: seq<bytes>, n: nat)
    requires n < |ixs| == |before| && FirstsCanPatch(before, n) && !CanPatch(before[n])
    requires after == PatchedUpTo(ixs, before, n + 1)
    ensures StopsAt(ixs, before, after, n)
  {
  }

  /** The transactions of a round move from what remains to what is done. */
  lemma RoundDone(
    done: seq<PreparedTransaction>, two: seq<PreparedTransaction>, rest: seq<PreparedTransaction>,
    all: seq<PreparedTransaction>)
    requires done + (two + rest) == all
    ensures (done + two) + rest == all
  {
    assert (done + two) + rest == done + (two + rest);
  }

  lemma NoneYet(ixs: seq<TransactionInstruction>, before: seq<bytes>)
    requires |before| == |ixs|
    ensures FirstsCanPatch(before, 0) && PatchedUpTo(ixs, before, 0) == before
  {
  }

  /** Patching one instruction changes the data of those that share its buffer, no other. */
  method PatchNth(ix: TransactionInstruction, ghost all: seq<TransactionInstruction>, ghost n: nat) returns (ok: bool)
    requires n < |all| && ix == all[n]
    modifies ix.data
    ensures ok == CanPatch(old(DataOf(all))[n])
    ensures forall k :: 0 <= k < |all| ==>
      DataOf(all)[k] == if all[k].data == ix.data then AfterPatch(old(DataOf(all))[n]) else old(DataOf(all))[k]
  {
    ok := UnsafeFixSigVerifyIx(ix.data, SIG_VERIFY_IX_INDEX);
  }

  /** Reverses the list and pops it empty. Succeeds exactly when every instruction that comes
      first in its pair can be patched, and then has patched just their buffers; otherwise it
      has stopped after the first one that cannot be patched as a whole. */
  method PreparePostVaaTxs(vaaVerifySignaturesIxs: seq<TransactionInstruction>, vaaPostIx: TransactionInstruction)
    returns (r: Option<seq<PreparedTransaction>>)
    modifies set ix | ix in vaaVerifySignaturesIxs :: ix.data
    ensures var all, before := vaaVerifySignaturesIxs, old(DataOf(vaaVerifySignaturesIxs));
      && (r.Some? <==> FirstsCanPatch(before, |all|))
      && (r.Some? ==> r.value == Pairs(all, vaaPostIx) && DataOf(all) == PatchedUpTo(all, before, |all|))
      && (r.None? ==> exists n :: 0 <= n < |all| && n % 2 == 0 && StopsAt(all, before, DataOf(all), n))
  {
    hide Pairs, PatchedUpTo, Reversed, CanPatch, AfterPatch, DataOf, FirstsCanPatch, SharesPatched, StopsAt;
    ghost var all, before := vaaVerifySignaturesIxs, DataOf(vaaVerifySignaturesIxs);
    var ixs := Reversed(vaaVerifySignaturesIxs);
    var preparedTransactions := [];
    ghost var n := 0;
    assert all[0..] == all;
    NoneYet(all, before);
    while |ixs| > 0
      invariant n <= |all| && (n % 2 == 0 || n == |all|) && ixs == Reversed(all[n..])
      invariant preparedTransactions + Pairs(all[n..], vaaPostIx) == Pairs(all, vaaPostIx)
      invariant FirstsCanPatch(before, n)
      invariant DataOf(all) == PatchedUpTo(all, before, n)
      decreases |ixs|
    {
      PopReversed(all, n);
      PairsStep(all, n, vaaPostIx);
      CanPatchNext(all, before, n);
      var sigVerifyIx := ixs[|ixs| - 1];
      ixs := ixs[..|ixs| - 1];
      assert ixs == Reversed(all[n + 1..]);
      var ok := PatchNth(sigVerifyIx, all, n);
      PatchedNext(all, before, n, DataOf(all));
      if !ok {
        Stops(all, before, DataOf(all), n);
        return None;
      }

      var verifySigsIx := None;
      n := n + 1;
      if |ixs| > 0 {
        PopReversed(all, n);
        verifySigsIx := Some(ixs[|ixs| - 1]);
        ixs := ixs[..|ixs| - 1];
        n := n + 1;
      }
      var two := [VerifySignatures(sigVerifyIx, verifySigsIx), PostVaaTx(vaaPostIx)];
      RoundDone(preparedTransactions, two, Pairs(all[n..], vaaPostIx), Pairs(all, vaaPostIx));
      preparedTransactions := preparedTransactions + two;
    }
    assert all[n..] == [];
    return Some(preparedTransactions);
  }

  /** The instructions of the verify transactions, in order. */
  ghost function VerifyIxs(txs: seq<PreparedTransaction>): seq<Option<TransactionInstruction>> {
    if txs == [] then []
    else
      (if txs[0].VerifySignatures? then [Some(txs[0].sigVerifyIx), txs[0].verifySigsIx] else []) + VerifyIxs(txs[1..])
  }

  /** The verify transactions together hold the original list in order; only a list of odd
      length ends in a missing instruction. */
  lemma {:induction false} PairsKeepOrder(ixs: seq<TransactionInstruction>, post: TransactionInstruction)
    ensures VerifyIxs(Pairs(ixs, post))
      == seq(|ixs|, i requires 0 <= i < |ixs| => Some(ixs[i])) + (if |ixs| % 2 == 1 then [None] else [])
    decreases |ixs|
  {
    if |ixs| == 1 {
      VerifyIxsOfPair(ixs[0], None, post, []);
      assert Pairs(ixs, post) == [VerifySignatures(ixs[0], None), PostVaaTx(post)] + [];
    } else if |ixs| > 1 {
      PairsKeepOrder(ixs[2..], post);
      VerifyIxsOfPair(ixs[0], Some(ixs[1]), post, Pairs(ixs[2..], post));
    }
  }

  lemma VerifyIxsOfPair(
    first: TransactionInstruction, second: Option<TransactionInstruction>, post: TransactionInstruction,
    rest: seq<PreparedTransaction>)
    ensures VerifyIxs([VerifySignatures(first, second), PostVaaTx(post)] + rest)
      == [Some(first), second] + VerifyIxs(rest)
  {
    var txs := [VerifySignatures(first, second), PostVaaTx(post)] + rest;
    assert txs[1..] == [PostVaaTx(post)] + rest && txs[1..][1..] == rest;
    assert VerifyIxs(txs[1..]) == [] + VerifyIxs(rest);
  }

  /** Each verify transaction is followed by one post transaction, and nothing else is sent. */
  lemma {:induction false} PairsAlternate(ixs: seq<TransactionInstruction>, post: TransactionInstruction)
    ensures |Pairs(ixs, post)| == |ixs| + |ixs| % 2
    ensures forall i :: 0 <= i < |Pairs(ixs, post)| ==>
      if i % 2 == 0 then Pairs(ixs, post)[i].VerifySignatures? else Pairs(ixs, post)[i] == PostVaaTx(post)
    decreases |ixs|
  {
    if |ixs| > 1 {
      PairsAlternate(ixs[2..], post);
    }
  }
}
