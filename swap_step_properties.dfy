/** What `get_delta_amounts` and the conversions under it promise: the price never moves
    past the target, the amounts settle the request, the fee is what the fee rate says,
    and the overflow of the target probe is read as "target out of reach". */
module SwapStepProperties {
  import opened Errors
  import opened Uint
  import opened QuoteMath
  import opened SwapMath
  import opened SwapStep

  // ---------------------------------------------------------------------------
  // The price moved by a partial fill stops at or before the target: the arithmetic.

  /** Zero-for-one exact-in: an input `a` no greater than the floored amount `q` to the
      target keeps the rounded-up new price at or above the target. */
  lemma InputToken0StopsAtTarget(l: nat, p: nat, t: nat, a: nat, q: nat, newP: nat)
    requires 0 < t < p && 0 < a <= q
    requires q == l * (p - t) / (t * p)
    requires newP * (l + a * p) >= l * p
    ensures newP >= t
  {
    var d := l + a * p;
    var tp := t * p;
    assert tp > 0 by {
      MulLeRight(t, 1, p);
    }
    assert d > 0 by {
      MulLeRight(a, 1, p);
    }
    assert a * tp <= l * (p - t) by {
      FloorDiv(l * (p - t), tp, q);
      MulLeRight(tp, a, q);
    }
    Token0TargetIdentities(l, p, t, a);
    assert d * t <= l * p;
    assert l * p <= d * newP;
    MulCancelLe(d, t, newP);
  }

  /** The ring identities behind `InputToken0StopsAtTarget`. */
  lemma Token0TargetIdentities(l: nat, p: nat, t: nat, a: nat)
    requires t <= p
    ensures t * (l + a * p) == t * l + a * (t * p)
    ensures l * (p - t) + l * t == l * p
  {
  }

  /** One-for-zero exact-in: an input `a` below the rounded-up amount `m` to the target
      keeps the floored new price at or below the target. */
  lemma InputToken1StopsAtTarget(liquidity: nat, p: nat, t: nat, a: nat, m: nat, newP: nat)
    requires p <= t && liquidity > 0 && a < m
    requires liquidity * (t - p) <= m * TWO_96 < liquidity * (t - p) + TWO_96
             || liquidity * (t - p) > U128_MAX * TWO_96 >= a * TWO_96
    requires newP == (p * liquidity + a * TWO_96) / liquidity
    ensures newP <= t
  {
    assert a * TWO_96 < liquidity * (t - p);
    assert liquidity * (t - p) == t * liquidity - p * liquidity;
    DivLt(p * liquidity + a * TWO_96, liquidity, t);
  }

  /** Zero-for-one exact-out: an output `k` below the floored amount `m` to the target keeps
      the floored new price at or above the target. */
  lemma OutputToken1StopsAtTarget(liquidity: nat, p: nat, t: nat, k: nat, m: nat, newP: nat)
    requires t < p && liquidity > 0 && k < m
    requires m * TWO_96 <= liquidity * (p - t) || liquidity * (p - t) >= TWO_128 * TWO_96
    requires k < TWO_64
    requires p * liquidity >= k * TWO_96
    requires newP == (p * liquidity - k * TWO_96) / liquidity
    ensures newP >= t
  {
    assert k * TWO_96 < liquidity * (p - t);
    assert liquidity * (p - t) == p * liquidity - t * liquidity;
    DivGe(p * liquidity - k * TWO_96, liquidity, t);
  }

  /** One-for-zero exact-out: an output `k` below the floored amount `q` to the target keeps
      the rounded-up new price at or below the target. */
  lemma OutputToken0StopsAtTarget(l: nat, p: nat, t: nat, k: nat, q: nat, d: nat, newP: nat)
    requires 0 < p < t && 0 < k < q
    requires q == l * (t - p) / (p * t)
    requires d == l - k * p && d > 0
    requires newP <= l * p / d + 1
    ensures newP <= t
  {
    var pt := p * t;
    assert pt > 0 by {
      MulLeRight(p, 1, t);
    }
    assert (k + 1) * pt <= l * (t - p) by {
      FloorDiv(l * (t - p), pt, q);
      MulLeRight(pt, k + 1, q);
    }
    Token0OutputIdentities(l, p, t, k, d);
    assert l * p < t * d;
    DivLt(l * p, d, t);
  }

  /** The ring identities behind `OutputToken0StopsAtTarget`. */
  lemma Token0OutputIdentities(l: nat, p: nat, t: nat, k: nat, d: nat)
    requires p <= t && d == l - k * p
    ensures t * d == t * l - k * (p * t)
    ensures (k + 1) * (p * t) == k * (p * t) + p * t
    ensures l * (t - p) == l * t - l * p
  {
  }

  // ---------------------------------------------------------------------------
  // Round trips: the price moved by an amount, read back as an amount.

  lemma Token0InputBack(l: nat, p: nat, a: nat, n: nat)
    requires 0 < n <= p && a > 0 && n == l * p / (l + a * p) + 1
    ensures l * (p - n) / (n * p) < a
  {
    var d := l + a * p;
    var q := l * p / d;
    assert d > 0 by {
      MulLeRight(a, 1, p);
    }
    FloorDiv(l * p, d, q);
    assert n * d == q * d + d;
    assert n * p > 0 by {
      MulLeRight(n, 1, p);
    }
    assert n * (l + a * p) == n * l + a * (n * p);
    assert l * (p - n) == l * p - l * n;
    DivLt(l * (p - n), n * p, a);
  }

  /** Adding `amount0` of token 0 moves the price to where the rounded-up token 0 amount back
      to the start is at most `amount0`: the new price is rounded so that the pool is never
      asked for more than it was given. */
  lemma Amount0InputRoundTrip(sqrtPrice: U128, liquidity: U128, amount0: I64)
    requires amount0 > 0
    ensures var next := GetNextSqrtRatioFromAmount0(sqrtPrice, liquidity, amount0);
            next.Ok? ==>
              var back := GetAmount0(sqrtPrice, next.value, liquidity, true);
              back.Ok? ==> back.value <= amount0
  {
    var next := GetNextSqrtRatioFromAmount0(sqrtPrice, liquidity, amount0);
    if next.Ok? {
      var back := GetAmount0(sqrtPrice, next.value, liquidity, true);
      if back.Ok? {
        var l := liquidity * TWO_96;
        var p, n := sqrtPrice, next.value;
        assert 0 < n <= p;
        Token0InputBack(l, p, amount0, n);
        assert Min(p, n) == n && Max(p, n) == p;
      }
    }
  }

  lemma Token1InputBack(liquidity: nat, p: nat, a: nat, n: nat, b: nat)
    requires liquidity > 0 && p <= n && n == (p * liquidity + a * TWO_96) / liquidity
    requires b * TWO_96 < liquidity * (n - p) + TWO_96
    ensures b <= a
  {
    FloorDiv(p * liquidity + a * TWO_96, liquidity, n);
    assert liquidity * (n - p) == n * liquidity - p * liquidity;
  }

  /** Adding `amount1` of token 1 moves the price to where the rounded-up token 1 amount back
      to the start is at most `amount1`. */
  lemma Amount1InputRoundTrip(sqrtPrice: U128, liquidity: U128, amount1: I64)
    requires amount1 >= 0
    ensures var next := GetNextSqrtRatioFromAmount1(sqrtPrice, liquidity, amount1);
            next.Ok? ==>
              var back := GetAmount1(sqrtPrice, next.value, liquidity, true);
              back.Ok? ==> back.value <= amount1
  {
    var next := GetNextSqrtRatioFromAmount1(sqrtPrice, liquidity, amount1);
    if next.Ok? {
      var back := GetAmount1(sqrtPrice, next.value, liquidity, true);
      if back.Ok? {
        assert Min(sqrtPrice, next.value) == sqrtPrice && Max(sqrtPrice, next.value) == next.value;
        Token1InputBack(liquidity, sqrtPrice, amount1, next.value, back.value);
      }
    }
  }

  lemma Token0OutputBack(l: nat, p: nat, k: nat, n: nat, d: nat)
    requires 0 < p <= n && k > 0 && d == l - k * p && d > 0 && n * d >= l * p
    ensures l * (n - p) / (p * n) >= k
  {
    assert p * n > 0 by {
      MulLeRight(p, 1, n);
    }
    assert n * d == n * l - k * (p * n);
    assert l * (n - p) == l * n - l * p;
    DivGe(l * (n - p), p * n, k);
  }

  /** Removing `-amount0` of token 0 moves the price to where the rounded-down token 0 amount
      back to the start is at least what was removed: the pool never pays out more than the
      price movement covers. */
  lemma Amount0OutputRoundTrip(sqrtPrice: U128, liquidity: U128, amount0: I64)
    requires I64_MIN < amount0 < 0
    ensures var next := GetNextSqrtRatioFromAmount0(sqrtPrice, liquidity, amount0);
            next.Ok? ==>
              var back := GetAmount0(sqrtPrice, next.value, liquidity, false);
              back.Ok? ==> back.value >= -amount0
  {
    var next := GetNextSqrtRatioFromAmount0(sqrtPrice, liquidity, amount0);
    if next.Ok? {
      var back := GetAmount0(sqrtPrice, next.value, liquidity, false);
      if back.Ok? {
        var l := liquidity * TWO_96;
        assert Min(sqrtPrice, next.value) == sqrtPrice && Max(sqrtPrice, next.value) == next.value;
        Token0OutputBack(l, sqrtPrice, -amount0, next.value, l + amount0 * sqrtPrice);
      }
    }
  }

  lemma Token1OutputBack(liquidity: nat, p: nat, k: nat, n: nat, b: nat)
    requires liquidity > 0 && n <= p && p * liquidity >= k * TWO_96
    requires n == (p * liquidity - k * TWO_96) / liquidity
    requires liquidity * (p - n) < b * TWO_96 + TWO_96
    ensures b >= k
  {
    FloorDiv(p * liquidity - k * TWO_96, liquidity, n);
    assert liquidity * (p - n) == p * liquidity - n * liquidity;
  }

  /** Removing `-amount1` of token 1 moves the price to where the rounded-down token 1 amount
      back to the start is at least what was removed. */
  lemma Amount1OutputRoundTrip(sqrtPrice: U128, liquidity: U128, amount1: I64)
    requires I64_MIN < amount1 < 0
    ensures var next := GetNextSqrtRatioFromAmount1(sqrtPrice, liquidity, amount1);
            next.Ok? ==>
              var back := GetAmount1(sqrtPrice, next.value, liquidity, false);
              back.Ok? ==> back.value >= -amount1
  {
    var next := GetNextSqrtRatioFromAmount1(sqrtPrice, liquidity, amount1);
    if next.Ok? {
      var back := GetAmount1(sqrtPrice, next.value, liquidity, false);
      if back.Ok? {
        assert Min(sqrtPrice, next.value) == next.value && Max(sqrtPrice, next.value) == sqrtPrice;
        Token1OutputBack(liquidity, sqrtPrice, -amount1, next.value, back.value);
      }
    }
  }

  // ---------------------------------------------------------------------------
  // The two exact-in fills.

  /** Exact-in, zero-for-one, below the target: the price moved by `available` of token 0
      stays at or above the target. */
  lemma PartialInputToken0Bounds(sqrtPrice: U128, targetSqrtPrice: U128, liquidity: U128, available: I64)
    requires targetSqrtPrice < sqrtPrice && available >= 0
    requires MaxAmountIn(sqrtPrice, targetSqrtPrice, liquidity).Ok?
    requires available < MaxAmountIn(sqrtPrice, targetSqrtPrice, liquidity).value
    ensures var next := GetNextSqrtRatioFromAmount0(sqrtPrice, liquidity, available);
            next.Ok? ==> targetSqrtPrice <= next.value <= sqrtPrice
  {
    var next := GetNextSqrtRatioFromAmount0(sqrtPrice, liquidity, available);
    if next.Ok? && available > 0 {
      var probe := GetAmount0(sqrtPrice, targetSqrtPrice, liquidity, true);
      assert Min(sqrtPrice, targetSqrtPrice) == targetSqrtPrice;
      assert Max(sqrtPrice, targetSqrtPrice) == sqrtPrice;
      var l := liquidity * TWO_96;
      var q := l * (sqrtPrice - targetSqrtPrice) / (targetSqrtPrice * sqrtPrice);
      assert probe.Ok? || probe == Err(AmountOverflow);
      assert available <= q;
      InputToken0StopsAtTarget(l, sqrtPrice, targetSqrtPrice, available, q, next.value);
    }
  }

  /** Exact-in, one-for-zero, below the target: the price moved by `available` of token 1
      stays at or below the target. */
  lemma PartialInputToken1Bounds(sqrtPrice: U128, targetSqrtPrice: U128, liquidity: U128, available: I64)
    requires sqrtPrice <= targetSqrtPrice && available >= 0
    requires MaxAmountIn(sqrtPrice, targetSqrtPrice, liquidity).Ok?
    requires available < MaxAmountIn(sqrtPrice, targetSqrtPrice, liquidity).value
    ensures var next := GetNextSqrtRatioFromAmount1(sqrtPrice, liquidity, available);
            next.Ok? ==> sqrtPrice <= next.value <= targetSqrtPrice
  {
    var next := GetNextSqrtRatioFromAmount1(sqrtPrice, liquidity, available);
    if next.Ok? {
      var probe := GetAmount1(sqrtPrice, targetSqrtPrice, liquidity, true);
      assert Min(sqrtPrice, targetSqrtPrice) == sqrtPrice;
      assert Max(sqrtPrice, targetSqrtPrice) == targetSqrtPrice;
      var m := MaxAmountIn(sqrtPrice, targetSqrtPrice, liquidity).value;
      InputToken1StopsAtTarget(liquidity, sqrtPrice, targetSqrtPrice, available, m, next.value);
    }
  }

  /** Exact-in below the target: the price stays between the start and the target, the
      offer is settled in full as input plus fee, the input is the rounded-up amount for the
      price moved and at most the fee-free part of the offer (or 1 when that part is 0), and
      neither the input conversion nor the fee subtraction can fail. */
  lemma PartialFillIn(sqrtPrice: U128, targetSqrtPrice: U128, liquidity: U128, offered: U64, available: nat)
    requires 0 < offered < TWO_63 && available <= offered
    requires MaxAmountIn(sqrtPrice, targetSqrtPrice, liquidity).Ok?
    requires available < MaxAmountIn(sqrtPrice, targetSqrtPrice, liquidity).value
    ensures var zeroForOne := targetSqrtPrice < sqrtPrice;
            var fill := FillExactInPartially(sqrtPrice, liquidity, offered, available, zeroForOne);
            && (fill.Ok? ==> Min(sqrtPrice, targetSqrtPrice) <= fill.value.0 <= Max(sqrtPrice, targetSqrtPrice))
            && (fill.Ok? ==> fill.value.1 + fill.value.2 == offered)
            && (fill.Ok? ==> fill.value.1 <= Max(available, 1))
            && (fill.Ok? ==>
                  SelectAmountFns(zeroForOne).0.Apply(sqrtPrice, fill.value.0, liquidity, true) == Ok(fill.value.1))
            && (fill.Err? ==> fill.error in {DivisionByZero, AmountOverflow, PriceOverflow})
  {
    if targetSqrtPrice < sqrtPrice {
      PartialFillInToken0(sqrtPrice, targetSqrtPrice, liquidity, offered, available);
    } else {
      PartialFillInToken1(sqrtPrice, targetSqrtPrice, liquidity, offered, available);
    }
  }

  lemma PartialFillInToken0(sqrtPrice: U128, targetSqrtPrice: U128, liquidity: U128, offered: U64, available: nat)
    requires 0 < offered < TWO_63 && available <= offered && targetSqrtPrice < sqrtPrice
    requires MaxAmountIn(sqrtPrice, targetSqrtPrice, liquidity).Ok?
    requires available < MaxAmountIn(sqrtPrice, targetSqrtPrice, liquidity).value
    ensures var fill := FillExactInPartially(sqrtPrice, liquidity, offered, available, true);
            && (fill.Ok? ==> targetSqrtPrice <= fill.value.0 <= sqrtPrice)
            && (fill.Ok? ==> fill.value.1 + fill.value.2 == offered)
            && (fill.Ok? ==> fill.value.1 <= Max(available, 1))
            && (fill.Ok? ==> GetAmount0(sqrtPrice, fill.value.0, liquidity, true) == Ok(fill.value.1))
            && (fill.Err? ==> fill.error in {DivisionByZero, AmountOverflow})
  {
    var amount: I64 := available;
    var next := GetNextSqrtRatioFromAmount0(sqrtPrice, liquidity, amount);
    if next.Ok? {
      PartialInputToken0Bounds(sqrtPrice, targetSqrtPrice, liquidity, amount);
      if amount > 0 {
        Amount0InputRoundTrip(sqrtPrice, liquidity, amount);
      } else {
        assert next.value == sqrtPrice;
        AmountsAtOnePrice(sqrtPrice, liquidity);
      }
    }
  }

  /** Between a price and itself the token 1 amount is 0 and the rounded-down token 0 amount
      is 0; the rounded-up token 0 amount is 0 or, by the rounding of `MulDivRoundUp`, 1. */
  lemma AmountsAtOnePrice(sqrtPrice: U128, liquidity: U128)
    ensures GetAmount1(sqrtPrice, sqrtPrice, liquidity, true) == Ok(0)
    ensures GetAmount1(sqrtPrice, sqrtPrice, liquidity, false) == Ok(0)
    ensures GetAmount0(sqrtPrice, sqrtPrice, liquidity, false)
              == if sqrtPrice == 0 then Err(DivisionByZero) else Ok(0)
    ensures var r := GetAmount0(sqrtPrice, sqrtPrice, liquidity, true);
            r.Ok? ==> r.value <= 1
  {
    assert Min(sqrtPrice, sqrtPrice) == sqrtPrice == Max(sqrtPrice, sqrtPrice);
    assert liquidity * (sqrtPrice - sqrtPrice) == 0;
    assert liquidity * TWO_96 * (sqrtPrice - sqrtPrice) == 0;
    if sqrtPrice > 0 {
      MulLeRight(sqrtPrice, 1, sqrtPrice);
    }
  }

  /** The rounded-up token 0 amount between a price and itself can be 1: 2^96 is not a
      multiple of 3 * 3, so `MulDivRoundUp` adds one to a zero quotient. */
  lemma EmptyIntervalRoundsUpToOne()
    ensures GetAmount0(3, 3, 1, true) == Ok(1)
  {
    assert TWO_96 % 9 != 0;
  }

  lemma PartialFillInToken1(sqrtPrice: U128, targetSqrtPrice: U128, liquidity: U128, offered: U64, available: nat)
    requires 0 < offered < TWO_63 && available <= offered && sqrtPrice <= targetSqrtPrice
    requires MaxAmountIn(sqrtPrice, targetSqrtPrice, liquidity).Ok?
    requires available < MaxAmountIn(sqrtPrice, targetSqrtPrice, liquidity).value
    ensures var fill := FillExactInPartially(sqrtPrice, liquidity, offered, available, false);
            && (fill.Ok? ==> sqrtPrice <= fill.value.0 <= targetSqrtPrice)
            && (fill.Ok? ==> fill.value.1 + fill.value.2 == offered)
            && (fill.Ok? ==> fill.value.1 <= available)
            && (fill.Ok? ==> GetAmount1(sqrtPrice, fill.value.0, liquidity, true) == Ok(fill.value.1))
            && (fill.Err? ==> fill.error in {DivisionByZero, AmountOverflow, PriceOverflow})
  {
    var amount: I64 := available;
    var next := GetNextSqrtRatioFromAmount1(sqrtPrice, liquidity, amount);
    if next.Ok? {
      PartialInputToken1Bounds(sqrtPrice, targetSqrtPrice, liquidity, amount);
      Amount1InputRoundTrip(sqrtPrice, liquidity, amount);
    }
  }

  /** An input no greater than the fee-free part of the offer leaves room for the fee
      charged on top of it: m + ceil(m * fee / (10^6 - fee)) <= offer. */
  lemma FeeOnTopFits(m: nat, feeInverse: nat, fee: nat, offered: nat)
    requires 0 < feeInverse && feeInverse + fee == MAX_FEE_U128
    requires m <= feeInverse * offered / MAX_FEE_U128
    ensures m <= offered
    ensures m + DivCeil(m * fee, feeInverse) <= offered
  {
    var avail := feeInverse * offered / MAX_FEE_U128;
    AvailableAtMostOffered(feeInverse, offered);
    assert m * MAX_FEE_U128 <= feeInverse * offered by {
      FloorDiv(feeInverse * offered, MAX_FEE_U128, avail);
      MulLeRight(MAX_FEE_U128, m, avail);
    }
    assert m * fee == m * MAX_FEE_U128 - m * feeInverse;
    assert m * fee <= feeInverse * (offered - m) by {
      assert feeInverse * offered - m * feeInverse == feeInverse * (offered - m);
    }
    var c := DivCeil(m * fee, feeInverse);
    CeilDiv(m * fee, feeInverse, c);
    assert feeInverse * c < feeInverse * (offered - m + 1);
    MulCancelLt(feeInverse, c, offered - m + 1);
  }

  /** Exact-in reaching the target: the fill cannot fail, the price is the target, the input
      is the amount to the target and the fee is charged on top of it at the fee rate,
      rounded up, within the offer. */
  lemma FillInToTarget(targetSqrtPrice: U128, maxAmountIn: U128, offered: U64, fee: U32)
    requires offered < TWO_63 && fee < MAX_FEE_U128
    requires maxAmountIn <= AmountInAvailable(offered, fee)
    ensures var feeInverse := MAX_FEE_U128 - fee;
            var available := AmountInAvailable(offered, fee);
            var fill := FillExactInToTarget(targetSqrtPrice, maxAmountIn, available, fee, feeInverse);
            && fill.Ok?
            && fill.value == (targetSqrtPrice, maxAmountIn, DivCeil(maxAmountIn * fee, feeInverse))
            && maxAmountIn + DivCeil(maxAmountIn * fee, feeInverse) <= offered
  {
    var feeInverse := MAX_FEE_U128 - fee;
    FeeOnTopFits(maxAmountIn, feeInverse, fee, offered);
    AvailableAtMostOffered(feeInverse, offered);
    MulLt(maxAmountIn, fee, TWO_63, TWO_32);
  }

  // ---------------------------------------------------------------------------
  // The exact-out fill below the target.

  /** Exact-out, zero-for-one, below the target: the price moved by removing `-amount1` of
      token 1 stays at or above the target. */
  lemma PartialOutputToken1Bounds(sqrtPrice: U128, targetSqrtPrice: U128, liquidity: U128, amount1: I64)
    requires targetSqrtPrice < sqrtPrice && I64_MIN < amount1 < 0
    requires MaxAmountOut(sqrtPrice, targetSqrtPrice, liquidity).Ok?
    requires -amount1 < MaxAmountOut(sqrtPrice, targetSqrtPrice, liquidity).value
    ensures var next := GetNextSqrtRatioFromAmount1(sqrtPrice, liquidity, amount1);
            next.Ok? ==> targetSqrtPrice <= next.value <= sqrtPrice
  {
    var next := GetNextSqrtRatioFromAmount1(sqrtPrice, liquidity, amount1);
    if next.Ok? {
      var probe := GetAmount1(sqrtPrice, targetSqrtPrice, liquidity, false);
      assert Min(sqrtPrice, targetSqrtPrice) == targetSqrtPrice;
      assert Max(sqrtPrice, targetSqrtPrice) == sqrtPrice;
      var m := MaxAmountOut(sqrtPrice, targetSqrtPrice, liquidity).value;
      var k := -amount1;
      assert sqrtPrice * liquidity + amount1 * TWO_96 == sqrtPrice * liquidity - k * TWO_96;
      OutputToken1StopsAtTarget(liquidity, sqrtPrice, targetSqrtPrice, k, m, next.value);
    }
  }

  /** Exact-out, one-for-zero, below the target: the price moved by removing `-amount0` of
      token 0 stays at or below the target. */
  lemma PartialOutputToken0Bounds(sqrtPrice: U128, targetSqrtPrice: U128, liquidity: U128, amount0: I64)
    requires sqrtPrice <= targetSqrtPrice && I64_MIN < amount0 < 0
    requires MaxAmountOut(sqrtPrice, targetSqrtPrice, liquidity).Ok?
    requires -amount0 < MaxAmountOut(sqrtPrice, targetSqrtPrice, liquidity).value
    ensures var next := GetNextSqrtRatioFromAmount0(sqrtPrice, liquidity, amount0);
            next.Ok? ==> sqrtPrice <= next.value <= targetSqrtPrice
  {
    OutputToken0Probe(sqrtPrice, targetSqrtPrice, liquidity, -amount0);
    RemovedToken0Bounds(sqrtPrice, targetSqrtPrice, liquidity, amount0);
  }

  lemma RemovedToken0Bounds(sqrtPrice: U128, targetSqrtPrice: U128, liquidity: U128, amount0: I64)
    requires 0 < sqrtPrice < targetSqrtPrice && I64_MIN < amount0 < 0
    requires -amount0 < liquidity * TWO_96 * (targetSqrtPrice - sqrtPrice) / (sqrtPrice * targetSqrtPrice)
    ensures var next := GetNextSqrtRatioFromAmount0(sqrtPrice, liquidity, amount0);
            next.Ok? ==> sqrtPrice <= next.value <= targetSqrtPrice
  {
    var next := GetNextSqrtRatioFromAmount0(sqrtPrice, liquidity, amount0);
    if next.Ok? {
      var l := liquidity * TWO_96;
      var k := -amount0;
      var d := l + amount0 * sqrtPrice;
      assert d > 0 && next.value <= l * sqrtPrice / d + 1;
      assert d == l - k * sqrtPrice;
      var q := l * (targetSqrtPrice - sqrtPrice) / (sqrtPrice * targetSqrtPrice);
      OutputToken0StopsAtTarget(l, sqrtPrice, targetSqrtPrice, k, q, d, next.value);
    }
  }

  /** What a token 0 amount to the target above `k` says about the two prices. */
  lemma OutputToken0Probe(sqrtPrice: U128, targetSqrtPrice: U128, liquidity: U128, k: nat)
    requires sqrtPrice <= targetSqrtPrice
    requires MaxAmountOut(sqrtPrice, targetSqrtPrice, liquidity).Ok?
    requires k < MaxAmountOut(sqrtPrice, targetSqrtPrice, liquidity).value
    ensures 0 < sqrtPrice < targetSqrtPrice
    ensures k < liquidity * TWO_96 * (targetSqrtPrice - sqrtPrice) / (sqrtPrice * targetSqrtPrice)
  {
    var probe := GetAmount0(sqrtPrice, targetSqrtPrice, liquidity, false);
    assert Min(sqrtPrice, targetSqrtPrice) == sqrtPrice;
    assert Max(sqrtPrice, targetSqrtPrice) == targetSqrtPrice;
    assert probe.Ok? || probe == Err(AmountOverflow);
    assert sqrtPrice < targetSqrtPrice;
  }

  // ---------------------------------------------------------------------------
  // Exact-in and exact-out steps.

  /** An exact-in step stays between the start price and the target. Its input is the
      rounded-up amount for the price moved and its output the rounded-down one. Below the
      target the offer is used in full, and the fee is what the price movement did not
      need (at least the fee-rate share, bar the rounding of an unmoved price). At the
      target the input is the amount to the target, and the fee rate is charged on top of it,
      rounded up, within the offer. */
  lemma ExactInSettles(sqrtPrice: U128, targetSqrtPrice: U128, liquidity: U128, deltaAmount: I64, fee: U32)
    requires deltaAmount > 0
    requires fee == MAX_FEE_U128 ==> MaxAmountIn(sqrtPrice, targetSqrtPrice, liquidity) != Ok(0)
    ensures var r := ExactIn(sqrtPrice, targetSqrtPrice, liquidity, deltaAmount, fee);
            var (amountInFn, amountOutFn) := SelectAmountFns(targetSqrtPrice < sqrtPrice);
            r.Ok? ==>
              var step := r.value;
              && fee <= MAX_FEE_U128
              && MaxAmountIn(sqrtPrice, targetSqrtPrice, liquidity).Ok?
              && Min(sqrtPrice, targetSqrtPrice) <= step.newSqrtPrice <= Max(sqrtPrice, targetSqrtPrice)
              && amountInFn.Apply(sqrtPrice, step.newSqrtPrice, liquidity, true) == Ok(step.amountIn)
              && amountOutFn.Apply(sqrtPrice, step.newSqrtPrice, liquidity, false) == Ok(step.amountOut)
              && step.amountIn + step.feeAmount <= deltaAmount
              && var available := AmountInAvailable(deltaAmount, fee);
                 var maxAmountIn := MaxAmountIn(sqrtPrice, targetSqrtPrice, liquidity).value;
                 && (available < maxAmountIn ==>
                       step.amountIn + step.feeAmount == deltaAmount && step.amountIn <= Max(available, 1))
                 && (maxAmountIn <= available ==>
                       && fee < MAX_FEE_U128
                       && step.newSqrtPrice == targetSqrtPrice
                       && step.amountIn == maxAmountIn
                       && step.feeAmount == DivCeil(step.amountIn * fee, MAX_FEE_U128 - fee))
  {
    var r := ExactIn(sqrtPrice, targetSqrtPrice, liquidity, deltaAmount, fee);
    if r.Ok? {
      ExactInShape(sqrtPrice, targetSqrtPrice, liquidity, deltaAmount, fee);
      var available := AmountInAvailable(deltaAmount, fee);
      var probe := MaxAmountIn(sqrtPrice, targetSqrtPrice, liquidity);
      if available < probe.value {
        ExactInBelowTarget(sqrtPrice, targetSqrtPrice, liquidity, deltaAmount, fee);
      } else {
        ExactInAtTarget(sqrtPrice, targetSqrtPrice, liquidity, deltaAmount, fee);
      }
    }
  }

  /** How an exact-in step is assembled from its fill: the step carries the fill's price,
      input and fee, and the output for the price moved. */
  lemma ExactInShape(sqrtPrice: U128, targetSqrtPrice: U128, liquidity: U128, deltaAmount: I64, fee: U32)
    requires deltaAmount > 0
    requires fee == MAX_FEE_U128 ==> MaxAmountIn(sqrtPrice, targetSqrtPrice, liquidity) != Ok(0)
    ensures var r := ExactIn(sqrtPrice, targetSqrtPrice, liquidity, deltaAmount, fee);
            r.Ok? ==>
              && fee <= MAX_FEE_U128
              && MaxAmountIn(sqrtPrice, targetSqrtPrice, liquidity).Ok?
              && AmountInAvailable(deltaAmount, fee) <= deltaAmount
              && var zeroForOne := targetSqrtPrice < sqrtPrice;
                 var available := AmountInAvailable(deltaAmount, fee);
                 var maxAmountIn := MaxAmountIn(sqrtPrice, targetSqrtPrice, liquidity).value;
                 var fill := FillExactIn(sqrtPrice, targetSqrtPrice, liquidity, maxAmountIn, deltaAmount,
                                         available, fee, MAX_FEE_U128 - fee, zeroForOne);
                 && fill.Ok?
                 && r.value.newSqrtPrice == fill.value.0
                 && r.value.amountIn == fill.value.1
                 && r.value.feeAmount == fill.value.2
                 && SelectAmountFns(zeroForOne).1.Apply(sqrtPrice, fill.value.0, liquidity, false)
                      == Ok(r.value.amountOut)
  {
    if fee <= MAX_FEE_U128 {
      AvailableAtMostOffered(MAX_FEE_U128 - fee, deltaAmount);
    }
  }

  lemma ExactInBelowTarget(sqrtPrice: U128, targetSqrtPrice: U128, liquidity: U128, deltaAmount: I64, fee: U32)
    requires deltaAmount > 0 && fee <= MAX_FEE_U128
    requires fee == MAX_FEE_U128 ==> MaxAmountIn(sqrtPrice, targetSqrtPrice, liquidity) != Ok(0)
    requires MaxAmountIn(sqrtPrice, targetSqrtPrice, liquidity).Ok?
    requires AmountInAvailable(deltaAmount, fee) < MaxAmountIn(sqrtPrice, targetSqrtPrice, liquidity).value
    ensures var r := ExactIn(sqrtPrice, targetSqrtPrice, liquidity, deltaAmount, fee);
            var (amountInFn, amountOutFn) := SelectAmountFns(targetSqrtPrice < sqrtPrice);
            r.Ok? ==>
              var step := r.value;
              && Min(sqrtPrice, targetSqrtPrice) <= step.newSqrtPrice <= Max(sqrtPrice, targetSqrtPrice)
              && amountInFn.Apply(sqrtPrice, step.newSqrtPrice, liquidity, true) == Ok(step.amountIn)
              && amountOutFn.Apply(sqrtPrice, step.newSqrtPrice, liquidity, false) == Ok(step.amountOut)
              && step.amountIn + step.feeAmount == deltaAmount
              && step.amountIn <= Max(AmountInAvailable(deltaAmount, fee), 1)
  {
    ExactInShape(sqrtPrice, targetSqrtPrice, liquidity, deltaAmount, fee);
    AvailableAtMostOffered(MAX_FEE_U128 - fee, deltaAmount);
    PartialFillIn(sqrtPrice, targetSqrtPrice, liquidity, deltaAmount, AmountInAvailable(deltaAmount, fee));
  }

  lemma ExactInAtTarget(sqrtPrice: U128, targetSqrtPrice: U128, liquidity: U128, deltaAmount: I64, fee: U32)
    requires deltaAmount > 0 && fee <= MAX_FEE_U128
    requires fee == MAX_FEE_U128 ==> MaxAmountIn(sqrtPrice, targetSqrtPrice, liquidity) != Ok(0)
    requires MaxAmountIn(sqrtPrice, targetSqrtPrice, liquidity).Ok?
    requires MaxAmountIn(sqrtPrice, targetSqrtPrice, liquidity).value <= AmountInAvailable(deltaAmount, fee)
    ensures var r := ExactIn(sqrtPrice, targetSqrtPrice, liquidity, deltaAmount, fee);
            var (amountInFn, amountOutFn) := SelectAmountFns(targetSqrtPrice < sqrtPrice);
            r.Ok? ==>
              var step := r.value;
              && fee < MAX_FEE_U128
              && step.newSqrtPrice == targetSqrtPrice
              && step.amountIn == MaxAmountIn(sqrtPrice, targetSqrtPrice, liquidity).value
              && step.feeAmount == DivCeil(step.amountIn * fee, MAX_FEE_U128 - fee)
              && step.amountIn + step.feeAmount <= deltaAmount
              && amountInFn.Apply(sqrtPrice, step.newSqrtPrice, liquidity, true) == Ok(step.amountIn)
              && amountOutFn.Apply(sqrtPrice, step.newSqrtPrice, liquidity, false) == Ok(step.amountOut)
  {
    var available := AmountInAvailable(deltaAmount, fee);
    ExactInShape(sqrtPrice, targetSqrtPrice, liquidity, deltaAmount, fee);
    AvailableAtMostOffered(MAX_FEE_U128 - fee, deltaAmount);
    assert fee < MAX_FEE_U128;
    FillInToTarget(targetSqrtPrice, MaxAmountIn(sqrtPrice, targetSqrtPrice, liquidity).value, deltaAmount, fee);
    ProbeReachesTarget(sqrtPrice, targetSqrtPrice, liquidity, available);
  }

  /** The errors an exact-in step can return. `AmountUnderflow` means exactly a fee above
      10^6; the input conversion and the fee subtraction below the target, and the fee
      conversion at the target, never fail. */
  lemma ExactInErrors(sqrtPrice: U128, targetSqrtPrice: U128, liquidity: U128, deltaAmount: I64, fee: U32)
    requires deltaAmount > 0
    requires fee == MAX_FEE_U128 ==> MaxAmountIn(sqrtPrice, targetSqrtPrice, liquidity) != Ok(0)
    ensures var r := ExactIn(sqrtPrice, targetSqrtPrice, liquidity, deltaAmount, fee);
            && (r == Err(AmountUnderflow) <==> fee > MAX_FEE_U128)
            && (r.Err? ==> r.error in {AmountUnderflow, DivisionByZero, AmountOverflow, PriceOverflow, AmountOutOverflow})
  {
    if fee <= MAX_FEE_U128 {
      var available := AmountInAvailable(deltaAmount, fee);
      var probe := MaxAmountIn(sqrtPrice, targetSqrtPrice, liquidity);
      AvailableAtMostOffered(MAX_FEE_U128 - fee, deltaAmount);
      assert probe.Err? ==> probe.error == DivisionByZero;
      if probe.Ok? {
        ExactInFillErrors(sqrtPrice, targetSqrtPrice, liquidity, deltaAmount, fee);
      }
    }
  }

  /** A probe of the amount to the target that overflows is no error: it reads as the
      largest amount, the target counts as out of reach, and an exact-in step spends the
      whole offer. */
  lemma ExactInOverflowedProbe(sqrtPrice: U128, targetSqrtPrice: U128, liquidity: U128, deltaAmount: I64, fee: U32)
    requires deltaAmount > 0
    requires SelectAmountFns(targetSqrtPrice < sqrtPrice).0.Apply(sqrtPrice, targetSqrtPrice, liquidity, true)
               == Err(AmountOverflow)
    ensures MaxAmountIn(sqrtPrice, targetSqrtPrice, liquidity) == Ok(U128_MAX)
    ensures var r := ExactIn(sqrtPrice, targetSqrtPrice, liquidity, deltaAmount, fee);
            r.Ok? ==> r.value.amountIn + r.value.feeAmount == deltaAmount
  {
    var r := ExactIn(sqrtPrice, targetSqrtPrice, liquidity, deltaAmount, fee);
    if r.Ok? {
      ExactInSettles(sqrtPrice, targetSqrtPrice, liquidity, deltaAmount, fee);
      AvailableAtMostOffered(MAX_FEE_U128 - fee, deltaAmount);
    }
  }

  lemma ExactInFillErrors(sqrtPrice: U128, targetSqrtPrice: U128, liquidity: U128, deltaAmount: I64, fee: U32)
    requires deltaAmount > 0 && fee <= MAX_FEE_U128
    requires fee == MAX_FEE_U128 ==> MaxAmountIn(sqrtPrice, targetSqrtPrice, liquidity) != Ok(0)
    requires MaxAmountIn(sqrtPrice, targetSqrtPrice, liquidity).Ok?
    ensures var r := ExactIn(sqrtPrice, targetSqrtPrice, liquidity, deltaAmount, fee);
            r.Err? ==> r.error in {DivisionByZero, AmountOverflow, PriceOverflow, AmountOutOverflow}
  {
    FillInErrors(sqrtPrice, targetSqrtPrice, liquidity, deltaAmount, fee);
  }

  /** The exact-in fill fails only on a zero denominator or an overflow. */
  lemma FillInErrors(sqrtPrice: U128, targetSqrtPrice: U128, liquidity: U128, deltaAmount: I64, fee: U32)
    requires deltaAmount > 0 && fee <= MAX_FEE_U128
    requires fee == MAX_FEE_U128 ==> MaxAmountIn(sqrtPrice, targetSqrtPrice, liquidity) != Ok(0)
    requires MaxAmountIn(sqrtPrice, targetSqrtPrice, liquidity).Ok?
    ensures AmountInAvailable(deltaAmount, fee) <= deltaAmount
    ensures var available := AmountInAvailable(deltaAmount, fee);
            var maxAmountIn := MaxAmountIn(sqrtPrice, targetSqrtPrice, liquidity).value;
            maxAmountIn <= available ==> 0 < MAX_FEE_U128 - fee
    ensures var available := AmountInAvailable(deltaAmount, fee);
            var maxAmountIn := MaxAmountIn(sqrtPrice, targetSqrtPrice, liquidity).value;
            var fill := FillExactIn(sqrtPrice, targetSqrtPrice, liquidity, maxAmountIn, deltaAmount,
                                    available, fee, MAX_FEE_U128 - fee, targetSqrtPrice < sqrtPrice);
            fill.Err? ==> fill.error in {DivisionByZero, AmountOverflow, PriceOverflow}
  {
    var available := AmountInAvailable(deltaAmount, fee);
    var probe := MaxAmountIn(sqrtPrice, targetSqrtPrice, liquidity);
    AvailableAtMostOffered(MAX_FEE_U128 - fee, deltaAmount);
    if available < probe.value {
      PartialFillIn(sqrtPrice, targetSqrtPrice, liquidity, deltaAmount, available);
    } else {
      FillInToTarget(targetSqrtPrice, probe.value, deltaAmount, fee);
    }
  }

  /** The exact-out fill stays between the start price and the target. Below the target
      it pays out the whole demand, which the rounded-down output of the price moved covers;
      otherwise it stops at the target and pays out the amount to it. */
  lemma FillOut(sqrtPrice: U128, targetSqrtPrice: U128, liquidity: U128, maxAmountOut: U128, deltaAmount: I64)
    requires I64_MIN < deltaAmount < 0
    requires MaxAmountOut(sqrtPrice, targetSqrtPrice, liquidity) == Ok(maxAmountOut)
    ensures var zeroForOne := targetSqrtPrice < sqrtPrice;
            var amountOutFn := SelectAmountFns(zeroForOne).1;
            var fill := FillExactOut(sqrtPrice, targetSqrtPrice, liquidity, maxAmountOut, deltaAmount, zeroForOne);
            && (fill.Ok? ==> Min(sqrtPrice, targetSqrtPrice) <= fill.value.0 <= Max(sqrtPrice, targetSqrtPrice))
            && (-deltaAmount < maxAmountOut && fill.Ok? ==>
                  && fill.value.1 == -deltaAmount
                  && (amountOutFn.Apply(sqrtPrice, fill.value.0, liquidity, false).Ok? ==>
                        amountOutFn.Apply(sqrtPrice, fill.value.0, liquidity, false).value >= -deltaAmount))
            && (maxAmountOut <= -deltaAmount ==>
                  && fill == Ok((targetSqrtPrice, maxAmountOut))
                  && amountOutFn.Apply(sqrtPrice, targetSqrtPrice, liquidity, false) == Ok(maxAmountOut))
            && (fill.Err? ==> fill.error in {DivisionByZero, AmountOverflow, AmountUnderflow, PriceOverflow})
  {
    if -deltaAmount < maxAmountOut {
      if targetSqrtPrice < sqrtPrice {
        PartialOutputToken1Bounds(sqrtPrice, targetSqrtPrice, liquidity, deltaAmount);
        Amount1OutputRoundTrip(sqrtPrice, liquidity, deltaAmount);
      } else {
        PartialOutputToken0Bounds(sqrtPrice, targetSqrtPrice, liquidity, deltaAmount);
        Amount0OutputRoundTrip(sqrtPrice, liquidity, deltaAmount);
      }
    } else {
      assert Min(sqrtPrice, targetSqrtPrice) <= targetSqrtPrice <= Max(sqrtPrice, targetSqrtPrice);
    }
  }

  /** An exact-out step stays between the start price and the target. Its input is the
      rounded-up amount for the price moved, and the fee rate is charged on top of it,
      rounded up. The output never exceeds the demand, and it is covered by the rounded-down
      output of the price moved. Below the target the demand is met in full; at the target the
      output is the amount to the target. */
  lemma ExactOutSettles(sqrtPrice: U128, targetSqrtPrice: U128, liquidity: U128, deltaAmount: I64, fee: U32)
    requires I64_MIN < deltaAmount < 0 && fee < MAX_FEE_U128
    ensures var r := ExactOut(sqrtPrice, targetSqrtPrice, liquidity, deltaAmount, fee);
            var (amountInFn, amountOutFn) := SelectAmountFns(targetSqrtPrice < sqrtPrice);
            r.Ok? ==>
              var step := r.value;
              && MaxAmountOut(sqrtPrice, targetSqrtPrice, liquidity).Ok?
              && Min(sqrtPrice, targetSqrtPrice) <= step.newSqrtPrice <= Max(sqrtPrice, targetSqrtPrice)
              && amountInFn.Apply(sqrtPrice, step.newSqrtPrice, liquidity, true) == Ok(step.amountIn)
              && FeeOnTop(step.amountIn, fee) == Ok(step.feeAmount)
              && step.amountOut <= -deltaAmount
              && (amountOutFn.Apply(sqrtPrice, step.newSqrtPrice, liquidity, false).Ok? ==>
                    step.amountOut <= amountOutFn.Apply(sqrtPrice, step.newSqrtPrice, liquidity, false).value)
              && var maxAmountOut := MaxAmountOut(sqrtPrice, targetSqrtPrice, liquidity).value;
                 && (-deltaAmount < maxAmountOut ==> step.amountOut == -deltaAmount)
                 && (maxAmountOut <= -deltaAmount ==>
                       && step.newSqrtPrice == targetSqrtPrice
                       && step.amountOut == maxAmountOut
                       && amountOutFn.Apply(sqrtPrice, targetSqrtPrice, liquidity, false) == Ok(maxAmountOut))
  {
    var r := ExactOut(sqrtPrice, targetSqrtPrice, liquidity, deltaAmount, fee);
    if r.Ok? {
      ExactOutShape(sqrtPrice, targetSqrtPrice, liquidity, deltaAmount, fee);
      FillOut(sqrtPrice, targetSqrtPrice, liquidity, MaxAmountOut(sqrtPrice, targetSqrtPrice, liquidity).value, deltaAmount);
    }
  }

  /** The same for exact-out: an overflowing probe of the output to the target reads as the
      largest amount, and the step pays out the whole demand. */
  lemma ExactOutOverflowedProbe(sqrtPrice: U128, targetSqrtPrice: U128, liquidity: U128, deltaAmount: I64, fee: U32)
    requires I64_MIN < deltaAmount < 0 && fee < MAX_FEE_U128
    requires SelectAmountFns(targetSqrtPrice < sqrtPrice).1.Apply(sqrtPrice, targetSqrtPrice, liquidity, false)
               == Err(AmountOverflow)
    ensures MaxAmountOut(sqrtPrice, targetSqrtPrice, liquidity) == Ok(U128_MAX)
    ensures var r := ExactOut(sqrtPrice, targetSqrtPrice, liquidity, deltaAmount, fee);
            r.Ok? ==> r.value.amountOut == -deltaAmount
  {
    ExactOutSettles(sqrtPrice, targetSqrtPrice, liquidity, deltaAmount, fee);
  }

  /** How an exact-out step is assembled from its fill: the fill's price and output, the
      input for the price moved and the fee on top of it. */
  lemma ExactOutShape(sqrtPrice: U128, targetSqrtPrice: U128, liquidity: U128, deltaAmount: I64, fee: U32)
    requires I64_MIN < deltaAmount < 0 && fee < MAX_FEE_U128
    ensures var r := ExactOut(sqrtPrice, targetSqrtPrice, liquidity, deltaAmount, fee);
            var zeroForOne := targetSqrtPrice < sqrtPrice;
            r.Ok? ==>
              && MaxAmountOut(sqrtPrice, targetSqrtPrice, liquidity).Ok?
              && var maxAmountOut := MaxAmountOut(sqrtPrice, targetSqrtPrice, liquidity).value;
                 var fill := FillExactOut(sqrtPrice, targetSqrtPrice, liquidity, maxAmountOut, deltaAmount, zeroForOne);
                 && fill.Ok?
                 && r.value.newSqrtPrice == fill.value.0
                 && r.value.amountOut == fill.value.1
                 && SelectAmountFns(zeroForOne).0.Apply(sqrtPrice, fill.value.0, liquidity, true) == Ok(r.value.amountIn)
                 && FeeOnTop(r.value.amountIn, fee) == Ok(r.value.feeAmount)
  {
  }

  /** An amount to the target at most the (63-bit) available input is no overflow read as
      the largest amount: the probe itself returned it. */
  lemma ProbeReachesTarget(sqrtPrice: U128, targetSqrtPrice: U128, liquidity: U128, available: nat)
    requires available < TWO_63
    requires MaxAmountIn(sqrtPrice, targetSqrtPrice, liquidity).Ok?
    requires MaxAmountIn(sqrtPrice, targetSqrtPrice, liquidity).value <= available
    ensures var (amountInFn, _) := SelectAmountFns(targetSqrtPrice < sqrtPrice);
            amountInFn.Apply(sqrtPrice, targetSqrtPrice, liquidity, true)
              == MaxAmountIn(sqrtPrice, targetSqrtPrice, liquidity)
  {
  }

  // ---------------------------------------------------------------------------
  // The whole step.

  /** Whatever the direction and mode, the new price lies between the start price and the
      target; an exact-in step spends at most the offer (input plus fee), and an exact-out
      step pays out at most the demand. */
  lemma GetDeltaAmountsStaysInRange(sqrtPrice: U128, targetSqrtPrice: U128, liquidity: U128, deltaAmount: I64, fee: U32)
    requires NoPanic(sqrtPrice, targetSqrtPrice, liquidity, deltaAmount, fee)
    ensures var r := GetDeltaAmounts(sqrtPrice, targetSqrtPrice, liquidity, deltaAmount, fee);
            && (r.Ok? ==> Min(sqrtPrice, targetSqrtPrice) <= r.value.newSqrtPrice <= Max(sqrtPrice, targetSqrtPrice))
            && (r.Ok? && deltaAmount > 0 ==> r.value.amountIn + r.value.feeAmount <= deltaAmount)
            && (r.Ok? && deltaAmount < 0 ==> r.value.amountOut <= -deltaAmount)
  {
    if deltaAmount > 0 {
      ExactInSettles(sqrtPrice, targetSqrtPrice, liquidity, deltaAmount, fee);
    } else if deltaAmount < 0 {
      ExactOutSettles(sqrtPrice, targetSqrtPrice, liquidity, deltaAmount, fee);
    } else {
      assert Min(sqrtPrice, targetSqrtPrice) <= sqrtPrice <= Max(sqrtPrice, targetSqrtPrice);
    }
  }

  /** At the target price nothing moves: any request, in either mode, returns the price
      unchanged and zero amounts. */
  lemma NoMovementAtTarget(sqrtPrice: U128, liquidity: U128, deltaAmount: I64, fee: U32)
    requires sqrtPrice > 0 && fee < MAX_FEE_U128 && deltaAmount != I64_MIN
    ensures NoPanic(sqrtPrice, sqrtPrice, liquidity, deltaAmount, fee)
    ensures GetDeltaAmounts(sqrtPrice, sqrtPrice, liquidity, deltaAmount, fee) == Ok(SwapStep(sqrtPrice, 0, 0, 0))
  {
    AmountsAtOnePrice(sqrtPrice, liquidity);
    if deltaAmount > 0 {
      ExactInAtTarget(sqrtPrice, sqrtPrice, liquidity, deltaAmount, fee);
    } else if deltaAmount < 0 {
      ExactOutSettles(sqrtPrice, sqrtPrice, liquidity, deltaAmount, fee);
      FeeOnTopOfNothing(fee);
    }
  }

  /** At price 0 with the target at 0, every nonzero request fails with `DivisionByZero`:
      the token 0 conversion from price 0 divides by zero. For exact-out that conversion is
      the probe; for exact-in the probe is the token 1 conversion and returns 0, and it is
      the output conversion that fails. */
  lemma ZeroPriceFails(liquidity: U128, deltaAmount: I64, fee: U32)
    requires deltaAmount != 0 && deltaAmount != I64_MIN && fee < MAX_FEE_U128
    ensures NoPanic(0, 0, liquidity, deltaAmount, fee)
    ensures MaxAmountIn(0, 0, liquidity) == Ok(0)
    ensures MaxAmountOut(0, 0, liquidity) == Err(DivisionByZero)
    ensures GetDeltaAmounts(0, 0, liquidity, deltaAmount, fee) == Err(DivisionByZero)
  {
    assert Min(0, 0) == 0;
  }

  /** The lower square-root price and the fee rate (1%) of the test market. */
  const SQRT_PRICE_A: U128 := 419236029690706642379639606
  const FEE: U32 := 10_000

  /** A buy of 10^9 at the 1% test fee whose target is the price it starts from (the curve's
      lower bound) moves nothing and charges nothing, whatever the liquidity. */
  lemma NoMovementAtLowerBound(liquidity: U128)
    ensures GetDeltaAmounts(SQRT_PRICE_A, SQRT_PRICE_A, liquidity, 1_000_000_000, FEE)
              == Ok(SwapStep(SQRT_PRICE_A, 0, 0, 0))
  {
    NoMovementAtTarget(SQRT_PRICE_A, liquidity, 1_000_000_000, FEE);
  }

  lemma FeeOnTopOfNothing(fee: U32)
    requires fee < MAX_FEE_U128
    ensures FeeOnTop(0, fee) == Ok(0)
  {
  }

  // ---------------------------------------------------------------------------
  // The conversions.

  /** The token 0 amount between two prices does not depend on their order, and rounding up
      gives the rounded-down amount or one more. */
  lemma Amount0Rounding(sqrtPriceA: U128, sqrtPriceB: U128, liquidity: U128)
    ensures GetAmount0(sqrtPriceA, sqrtPriceB, liquidity, true) == GetAmount0(sqrtPriceB, sqrtPriceA, liquidity, true)
    ensures GetAmount0(sqrtPriceA, sqrtPriceB, liquidity, false) == GetAmount0(sqrtPriceB, sqrtPriceA, liquidity, false)
    ensures var up, down := GetAmount0(sqrtPriceA, sqrtPriceB, liquidity, true), GetAmount0(sqrtPriceA, sqrtPriceB, liquidity, false);
            up.Ok? ==> down.Ok? && down.value <= up.value <= down.value + 1
  {
  }

  /** The token 1 amount between two prices does not depend on their order, and rounding up
      gives the rounded-down amount or one more. */
  lemma Amount1Rounding(sqrtPriceA: U128, sqrtPriceB: U128, liquidity: U128)
    ensures GetAmount1(sqrtPriceA, sqrtPriceB, liquidity, true) == GetAmount1(sqrtPriceB, sqrtPriceA, liquidity, true)
    ensures GetAmount1(sqrtPriceA, sqrtPriceB, liquidity, false) == GetAmount1(sqrtPriceB, sqrtPriceA, liquidity, false)
    ensures var up, down := GetAmount1(sqrtPriceA, sqrtPriceB, liquidity, true), GetAmount1(sqrtPriceA, sqrtPriceB, liquidity, false);
            up.Ok? ==> down.Ok? && down.value <= up.value <= down.value + 1
  {
  }
}
