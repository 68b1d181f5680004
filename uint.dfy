/** Fixed-width integers as bounded mathematical integers, with the checked, wrapping,
    saturating and truncating operations of Rust's primitive integers and of the 256- and
    512-bit integers used by the quote math. Nothing here wraps silently: every wrap,
    saturation or truncation is written out. */
module Uint {
  import opened Errors

  const TWO_32: nat := 0x1_0000_0000
  const TWO_63: nat := 0x8000_0000_0000_0000
  const TWO_64: nat := 0x1_0000_0000_0000_0000
  const TWO_96: nat := 0x1_0000_0000_0000_0000_0000_0000
  const TWO_128: nat := 0x1_0000_0000_0000_0000_0000_0000_0000_0000
  const TWO_256: nat := 0x1_0000_0000_0000_0000_0000_0000_0000_0000_0000_0000_0000_0000_0000_0000_0000_0000
  const TWO_512: nat := 0x1_0000_0000_0000_0000_0000_0000_0000_0000_0000_0000_0000_0000_0000_0000_0000_0000_0000_0000_0000_0000_0000_0000_0000_0000_0000_0000_0000_0000_0000_0000_0000_0000

  type U32 = x: nat | x < TWO_32
  type U64 = x: nat | x < TWO_64
  type U128 = x: nat | x < TWO_128
  type U256 = x: nat | x < TWO_256
  type U512 = x: nat | x < TWO_512
  type I64 = x: int | -0x8000_0000_0000_0000 <= x < 0x8000_0000_0000_0000

  const U128_MAX: U128 := TWO_128 - 1
  const I64_MIN: I64 := -0x8000_0000_0000_0000

  /** 2^n; the shifts of the quote math are multiplications by such a power. */
  function Pow2(n: nat): nat {
    if n == 0 then 1 else 2 * Pow2(n - 1)
  }

  lemma {:induction false} Pow2Add(a: nat, b: nat)
    ensures Pow2(a + b) == Pow2(a) * Pow2(b)
    decreases a
  {
    if a > 0 {
      Pow2Add(a - 1, b);
    }
  }

  function Min(a: nat, b: nat): nat {
    if a < b then a else b
  }

  function Max(a: nat, b: nat): nat {
    if a < b then b else a
  }

  /** `checked_sub(b).ok_or(e)` */
  function CheckedSub(a: nat, b: nat, e: Error): Result<nat> {
    if b <= a then Ok(a - b) else Err(e)
  }

  /** `U256::checked_add(b).ok_or(e)` */
  function CheckedAdd256(a: U256, b: U256, e: Error): Result<U256> {
    if a + b < TWO_256 then Ok(a + b) else Err(e)
  }

  /** `u128::checked_mul(b).ok_or(e)` */
  function CheckedMul128(a: U128, b: U128, e: Error): Result<U128> {
    if a * b < TWO_128 then Ok(a * b) else Err(e)
  }

  /** `u128::try_from(v).map_err(|_| e)` */
  function TryU128(v: nat, e: Error): Result<U128> {
    if v < TWO_128 then Ok(v) else Err(e)
  }

  /** `u64::try_from(v).map_err(|_| e)` */
  function TryU64(v: nat, e: Error): Result<U64> {
    if v < TWO_64 then Ok(v) else Err(e)
  }

  /** `i64::try_from(v).map_err(|_| e)` for an unsigned `v` */
  function TryI64(v: nat, e: Error): Result<I64> {
    if v < TWO_63 then Ok(v) else Err(e)
  }

  /** `v` reduced modulo `m`, by repeated subtraction */
  function Reduce(v: nat, m: nat): (r: nat)
    requires m > 0
    ensures r < m
    decreases v
  {
    if v < m then v else Reduce(v - m, m)
  }

  /** `Reduce` is the remainder of Euclidean division. */
  lemma {:induction false} ReduceIsModulo(v: nat, m: nat)
    requires m > 0
    ensures Reduce(v, m) == v % m
    decreases v
  {
    if v >= m {
      ReduceIsModulo(v - m, m);
      var q := v / m;
      FloorDiv(v, m, q);
      FloorDiv(v - m, m, q - 1);
    }
  }

  /** `v as u64`: keeps the low 64 bits */
  function TruncateU64(v: U128): (r: U64)
    ensures v < TWO_64 ==> r == v
  {
    Reduce(v, TWO_64)
  }

  /** `i64::abs`, which overflows (panics) for `i64::MIN` */
  function Abs(x: I64): nat
    requires x != I64_MIN
  {
    if x < 0 then -x else x
  }

  /** `div_ceil` of Rust's unsigned integers, which panics when `d` is zero */
  function DivCeil(n: nat, d: nat): nat
    requires d > 0
  {
    if n % d == 0 then n / d else n / d + 1
  }

  /** `*` on `U256`, taken modulo 2^256 */
  function WrappingMul256(a: U256, b: U256): U256 {
    Reduce(a * b, TWO_256)
  }

  /** `U512::wrapping_mul` */
  function WrappingMul512(a: U512, b: U512): U512 {
    Reduce(a * b, TWO_512)
  }

  /** `U256::saturating_shl(96)`: the maximum value when a set bit would be shifted out */
  function SaturatingShl96(v: U256): U256 {
    if v * TWO_96 < TWO_256 then v * TWO_96 else TWO_256 - 1
  }

  /** A 128-bit value shifted left by 96 bits stays below 2^224, so the shift never saturates. */
  lemma ShlNeverSaturates(v: U128)
    ensures SaturatingShl96(v) == v * TWO_96
    ensures v * TWO_96 < TWO_128 * TWO_96
  {
  }

  /** The product of two 128-bit values never wraps in 256 bits. */
  lemma ProductNeverWraps256(a: U128, b: U128)
    ensures WrappingMul256(a, b) == a * b
  {
    MulLt(a, b, TWO_128, TWO_128);
  }

  /** The product of two 256-bit values never wraps in 512 bits. */
  lemma ProductNeverWraps512(a: U256, b: U256)
    ensures WrappingMul512(a, b) == a * b
  {
    MulLt(a, b, TWO_256, TWO_256);
  }

  // Arithmetic facts the solver does not find on its own.

  lemma MulLeRight(a: nat, b: nat, c: nat)
    requires b <= c
    ensures a * b <= a * c
  {
  }

  lemma MulLt(a: nat, b: nat, bigA: nat, bigB: nat)
    requires a < bigA && b < bigB
    ensures a * b < bigA * bigB
  {
    MulLeRight(a, b, bigB);
    MulLeRight(bigB, a, bigA);
  }

  /** `n / d` is the unique `q` with `q * d <= n < (q + 1) * d`. */
  lemma FloorDiv(n: nat, d: nat, q: nat)
    requires d > 0
    ensures q == n / d <==> q * d <= n < q * d + d
  {
    var k := n / d;
    assert n == k * d + n % d;
    if q < k {
      MulLeRight(d, q + 1, k);
    } else if q > k {
      MulLeRight(d, k + 1, q);
    }
  }

  /** A ceiling quotient c of n by d fits in 64 bits exactly when n is at most (2^64 - 1) * d. */
  lemma CeilFitsU64(n: nat, d: nat, c: nat)
    requires d > 0 && n <= c * d < n + d
    ensures c < TWO_64 <==> n <= (TWO_64 - 1) * d
  {
    if c < TWO_64 {
      MulLeRight(d, c, TWO_64 - 1);
    } else {
      MulLeRight(d, TWO_64, c);
    }
  }

  /** `DivCeil(n, d)` is the unique `c` with `c * d - d < n <= c * d`. */
  lemma CeilDiv(n: nat, d: nat, c: nat)
    requires d > 0
    ensures c == DivCeil(n, d) <==> n <= c * d < n + d
  {
    var k := n / d;
    FloorDiv(n, d, k);
    if c < DivCeil(n, d) {
      MulLeRight(d, c, k);
    } else if c > DivCeil(n, d) {
      MulLeRight(d, DivCeil(n, d) + 1, c);
    }
  }

  lemma DivLe(n: nat, d: nat, p: nat)
    requires d > 0 && n <= p * d
    ensures n / d <= p
  {
    FloorDiv(n, d, n / d);
    if n / d > p {
      MulLeRight(d, p + 1, n / d);
    }
  }

  lemma DivLt(n: nat, d: nat, p: nat)
    requires d > 0 && n < p * d
    ensures n / d < p
  {
    FloorDiv(n, d, n / d);
    if n / d >= p {
      MulLeRight(d, p, n / d);
    }
  }

  lemma DivGe(n: nat, d: nat, p: nat)
    requires d > 0 && n >= p * d
    ensures n / d >= p
  {
    FloorDiv(n, d, n / d);
    if n / d < p {
      MulLeRight(d, n / d + 1, p);
    }
  }

  /** A positive common factor cancels from a strict inequality. */
  lemma MulCancelLt(a: nat, x: nat, y: nat)
    requires a * x < a * y
    ensures x < y
  {
    if x >= y {
      MulLeRight(a, y, x);
    }
  }

  /** A positive common factor cancels from a non-strict inequality. */
  lemma MulCancelLe(a: nat, x: nat, y: nat)
    requires a > 0 && a * x <= a * y
    ensures x <= y
  {
    if x > y {
      MulLeRight(a, y + 1, x);
    }
  }
}
