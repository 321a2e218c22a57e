/** The fixed-width unsigned integers of the on-chain program, with the saturating and
    truncating operations it uses written out on mathematical integers. */
module MachineInts {

  const U16_MAX: int := 0xFFFF
  const U32_MAX: int := 0xFFFF_FFFF
  const U64_MAX: int := 0xFFFF_FFFF_FFFF_FFFF
  const U128_MAX: int := 0xFFFF_FFFF_FFFF_FFFF_FFFF_FFFF_FFFF_FFFF

  type u16 = x: int | 0 <= x <= U16_MAX
  type u32 = x: int | 0 <= x <= U32_MAX
  type u64 = x: int | 0 <= x <= U64_MAX
  type u128 = x: int | 0 <= x <= U128_MAX

  function SatAdd64(a: u64, b: u64): u64 {
    if a + b > U64_MAX then U64_MAX else a + b
  }

  function SatSub64(a: u64, b: u64): u64 {
    if a < b then 0 else a - b
  }

  function SatMul128(a: u128, b: u128): u128 {
    MulMono(0, b, a);
    if a * b > U128_MAX then U128_MAX else a * b
  }

  function Div128(a: u128, b: u128): u128
    requires b != 0
  {
    DivBounds(a, b);
    a / b
  }

  /** `as u64` on a u128 keeps the low 64 bits. */
  function CastU64(x: u128): u64 {
    x % (U64_MAX + 1)
  }

  lemma MulMono(a: int, b: int, c: int)
    requires a <= b && 0 <= c
    ensures c * a <= c * b && a * c <= b * c
  {
    assert 0 <= c * (b - a);
  }

  /** The quotient is an integer whose window `[b * q, b * q + b)` holds the dividend. */
  lemma DivWindow(a: int, b: int)
    requires 0 < b
    ensures b * (a / b) <= a < b * (a / b) + b
  {
    assert a == b * (a / b) + a % b;
  }

  /** And it is the only such integer. */
  lemma DivUnique(a: int, b: int, q: int)
    requires 0 < b && b * q <= a < b * q + b
    ensures a / b == q
  {
    DivWindow(a, b);
    if a / b < q {
      MulMono(a / b + 1, q, b);
    } else if a / b > q {
      MulMono(q + 1, a / b, b);
    }
  }

  lemma DivBounds(a: int, b: int)
    requires 0 <= a && 0 < b
    ensures 0 <= a / b <= a
  {
    var q := a / b;
    DivWindow(a, b);
    if q <= -1 {
      MulMono(q, -1, b);
    } else {
      MulMono(1, b, q);
    }
  }

  lemma DivMono(a: int, b: int, c: int)
    requires a <= b && 0 < c
    ensures a / c <= b / c
  {
    DivWindow(a, c);
    DivWindow(b, c);
    if a / c > b / c {
      MulMono(b / c + 1, a / c, c);
    }
  }
}
