/** Machine integers and the partial arithmetic the Rust code chooses explicitly. */
module Machine {

  datatype Option<+T> = None | Some(value: T)

  datatype Result<+T, +E> = Ok(value: T) | Err(error: E)

  const U32_MAX: int := 0xFFFF_FFFF
  const U64_MAX: int := 0xFFFF_FFFF_FFFF_FFFF

  type U8 = x: int | 0 <= x < 0x100
  type U16 = x: int | 0 <= x < 0x1_0000
  type U32 = x: int | 0 <= x <= 0xFFFF_FFFF
  type U64 = x: int | 0 <= x <= 0xFFFF_FFFF_FFFF_FFFF

  type Bytes = seq<U8>

  function CheckedAdd(a: U64, b: U64): Option<U64> {
    if a + b <= U64_MAX then Some(a + b) else None
  }

  function CheckedMul(a: U64, b: U64): Option<U64> {
    if a * b <= U64_MAX then assert a * b >= 0; Some(a * b) else None
  }

  function SaturatingAdd(a: U64, b: U64): U64 {
    if a + b <= U64_MAX then a + b else U64_MAX
  }

  function SaturatingSub(a: U64, b: U64): U64 {
    if b <= a then a - b else 0
  }

  /** `u32::from_le_bytes`. */
  function Le32(b: Bytes): U32
    requires |b| == 4
  {
    var b0: int, b1: int, b2: int, b3: int := b[0], b[1], b[2], b[3];
    b0 + 0x100 * b1 + 0x1_0000 * b2 + 0x100_0000 * b3
  }

  /** The little-endian 32-bit number at `i`. */
  function Word(s: Bytes, i: nat): nat
    requires i + 4 <= |s|
  {
    var b0: int, b1: int, b2: int, b3: int := s[i], s[i + 1], s[i + 2], s[i + 3];
    b0 + 0x100 * b1 + 0x1_0000 * b2 + 0x100_0000 * b3
  }

  /** `u32::to_le_bytes`. */
  function ToLe32(n: U32): Bytes {
    [n % 0x100, n / 0x100 % 0x100, n / 0x1_0000 % 0x100, n / 0x100_0000]
  }

  lemma Le32RoundTrip(n: U32)
    ensures |ToLe32(n)| == 4 && Le32(ToLe32(n)) == n
  {
    var q1 := n / 0x100;
    var q2 := q1 / 0x100;
    assert n / 0x1_0000 == q2 && n / 0x100_0000 == q2 / 0x100;
    assert q2 == q2 % 0x100 + 0x100 * (q2 / 0x100);
    assert q1 == q1 % 0x100 + 0x100 * q2;
    assert n == n % 0x100 + 0x100 * q1;
  }

  lemma ToLe32RoundTrip(b: Bytes)
    requires |b| == 4
    ensures ToLe32(Le32(b)) == b
  {
    var b1: int, b2: int, b3: int := b[1], b[2], b[3];
    Digits(b1 + 0x100 * b2 + 0x1_0000 * b3, b[0], 0x100);
    Digits(b2 + 0x100 * b3, b1, 0x100);
    Digits(b3, b2, 0x100);
  }

  lemma MulBound(a: int, b: int, hiA: int, hiB: int)
    requires 0 <= a <= hiA && 0 <= b <= hiB
    ensures 0 <= a * b <= hiA * hiB
  {
    assert a * b <= hiA * b <= hiA * hiB;
  }

  lemma MulMonotone(a: int, b: int, c: int)
    requires a <= b && 0 <= c
    ensures a * c <= b * c
  {
  }

  /** Quotient and remainder are determined by the digits. */
  lemma Digits(q: int, r: int, d: int)
    requires 0 <= r < d
    ensures (q * d + r) / d == q && (q * d + r) % d == r
  {
    var n := q * d + r;
    var q', r' := n / d, n % d;
    assert n == q' * d + r';
    if q' < q { MulMonotone(q' + 1, q, d); }
    if q < q' { MulMonotone(q + 1, q', d); }
  }

  lemma DivBound(x: nat, d: nat, n: nat)
    requires d > 0 && x < n * d
    ensures 0 <= x / d < n
  {
    assert x / d * d <= x;
    if n <= x / d { MulMonotone(n, x / d, d); }
  }
}
