/** Byte strings and the fixed-width integers written into them. */
module Bytes {
  import opened MachineInts
  import opened Wrappers

  type byte = x: int | 0 <= x < 256
  type bytes = seq<byte>

  ghost function Pow256(k: nat): nat
    ensures Pow256(k) > 0
  {
    if k == 0 then 1 else 256 * Pow256(k - 1)
  }

  ghost function Zeros(n: nat): (b: bytes)
    ensures |b| == n
  {
    seq(n, _ => 0)
  }

  /** The low `k` bytes of a number, most significant first. */
  function BE(n: nat, k: nat): (b: bytes)
    ensures |b| == k
  {
    if k == 0 then [] else BE(n / 256, k - 1) + [n % 256]
  }

  function FromBE(b: bytes): nat {
    if b == [] then 0 else 256 * FromBE(b[..|b| - 1]) + b[|b| - 1]
  }

  /** Least significant first. */
  function LE(n: nat, k: nat): (b: bytes)
    ensures |b| == k
  {
    if k == 0 then [] else [n % 256] + LE(n / 256, k - 1)
  }

  function FromLE(b: bytes): nat {
    if b == [] then 0 else b[0] + 256 * FromLE(b[1..])
  }

  lemma {:induction false} BERoundTrip(n: nat, k: nat)
    requires n < Pow256(k)
    ensures FromBE(BE(n, k)) == n
  {
    if k > 0 {
      BERoundTrip(n / 256, k - 1);
      assert BE(n, k)[..k - 1] == BE(n / 256, k - 1);
    }
  }

  lemma {:induction false} FromBERoundTrip(b: bytes)
    ensures FromBE(b) < Pow256(|b|) && BE(FromBE(b), |b|) == b
  {
    if b != [] {
      FromBERoundTrip(b[..|b| - 1]);
    }
  }

  lemma {:induction false} LERoundTrip(n: nat, k: nat)
    requires n < Pow256(k)
    ensures FromLE(LE(n, k)) == n
  {
    if k > 0 {
      LERoundTrip(n / 256, k - 1);
    }
  }

  lemma {:induction false} FromLERoundTrip(b: bytes)
    ensures FromLE(b) < Pow256(|b|) && LE(FromLE(b), |b|) == b
  {
    if b != [] {
      FromLERoundTrip(b[1..]);
      assert FromLE(b) / 256 == FromLE(b[1..]) && FromLE(b) % 256 == b[0];
    }
  }

  /** Byte `i` of a number, most or least significant first. */
  lemma {:induction false} BEByte(n: nat, k: nat, i: nat)
    requires i < k
    ensures BE(n, k)[i] == n / Pow256(k - 1 - i) % 256
  {
    if i < k - 1 {
      BEByte(n / 256, k - 1, i);
      DivTwice(n, Pow256(k - 2 - i));
    }
  }

  lemma {:induction false} LEByte(n: nat, k: nat, i: nat)
    requires i < k
    ensures LE(n, k)[i] == n / Pow256(i) % 256
  {
    if i > 0 {
      LEByte(n / 256, k - 1, i - 1);
      DivTwice(n, Pow256(i - 1));
    }
  }

  lemma DivTwice(n: nat, p: nat)
    requires 0 < p
    ensures n / 256 / p == n / (256 * p)
  {
    var q := n / 256 / p;
    DivWindow(n / 256, p);
    assert (256 * p) * q <= n < (256 * p) * q + 256 * p by {
      assert 256 * (p * q) == (256 * p) * q;
    }
    DivUnique(n, 256 * p, q);
  }

  /** A number that needs only `k` bytes sits at the right end of a wider field. */
  lemma {:induction false} BEIsRightAligned(n: nat, k: nat, width: nat)
    requires k <= width && n < Pow256(k)
    ensures BE(n, width) == Zeros(width - k) + BE(n, k)
  {
    if k > 0 {
      BEIsRightAligned(n / 256, k - 1, width - 1);
    } else if width > 0 {
      BEIsRightAligned(0, 0, width - 1);
    }
  }

  lemma Pow256Widths()
    ensures Pow256(1) == 0x100 && Pow256(2) == 0x1_0000 && Pow256(4) == 0x1_0000_0000
    ensures Pow256(8) == 0x1_0000_0000_0000_0000
  {
    assert Pow256(4) == 256 * (256 * Pow256(2)) && Pow256(8) == 256 * (256 * (256 * (256 * Pow256(4))));
  }

  // ------------------------------------------------------------------------ buffer reading

  /** `subarray`, which clamps its bounds instead of failing. */
  function Slice(b: bytes, start: nat, end: nat): (s: bytes)
    ensures end <= |b| && start <= end ==> s == b[start..end]
    ensures |b| < end && start <= |b| ==> s == b[start..]
    ensures end < start || |b| < start ==> s == []
  {
    var e := if end < |b| then end else |b|;
    if start <= e then b[start..e] else []
  }

  /** A fixed-width read, which throws when it would leave the buffer. */
  function ReadBE(b: bytes, offset: nat, width: nat): Option<nat> {
    if offset + width <= |b| then Some(FromBE(b[offset..offset + width])) else None
  }

  function ReadLE(b: bytes, offset: nat, width: nat): Option<nat> {
    if offset + width <= |b| then Some(FromLE(b[offset..offset + width])) else None
  }
}
