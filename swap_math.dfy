/** Amount/price conversions over a single liquidity range and the swap-step solver
    (`quote/swap_math.rs`). Square-root prices are Q64.96 fixed-point numbers. */
module SwapMath {
  import opened Errors
  import opened Uint
  import opened QuoteMath

  /** Fee denominator: fees are parts per million. */
  const MAX_FEE_U128: nat := 1_000_000

  /** Number of fractional bits of a square-root price. */
  const SQRT_PRICE_SHIFT: nat := 96

  /** Shifting by `SQRT_PRICE_SHIFT` multiplies by `TWO_96`, the scale every price and
      amount conversion below uses. */
  lemma SqrtPriceScale()
    ensures Pow2(SQRT_PRICE_SHIFT) == TWO_96
  {
    assert Pow2(3) == 8;
    Pow2Add(3, 3);
    assert Pow2(6) == 64;
    Pow2Add(6, 6);
    assert Pow2(12) == 0x1000;
    Pow2Add(12, 12);
    assert Pow2(24) == 0x100_0000;
    Pow2Add(24, 24);
    assert Pow2(48) == 0x1_0000_0000_0000;
    Pow2Add(48, 48);
  }

  // ---------------------------------------------------------------------------
  // Amount <-> price conversions

  /** `get_amount_0`: the amount of token 0 between two square-root prices, in either
      order: L * 2^96 * (hi - lo) / (lo * hi), rounded up when `adding`. */
  function GetAmount0(sqrtPriceA: U128, sqrtPriceB: U128, liquidity: U128, adding: bool): (r: Result<U128>)
    ensures r.Err? ==> r.error in {DivisionByZero, AmountOverflow}
    ensures r == Err(DivisionByZero) <==> Min(sqrtPriceA, sqrtPriceB) == 0
    ensures var lo, hi := Min(sqrtPriceA, sqrtPriceB), Max(sqrtPriceA, sqrtPriceB);
            var exact := liquidity * TWO_96 * (hi - lo);
            && (r.Ok? && !adding ==> r.value == exact / (lo * hi))
            && (r.Ok? && adding ==> exact / (lo * hi) <= r.value <= exact / (lo * hi) + 1)
            && (r.Ok? && adding ==> r.value * (lo * hi) >= exact)
            && (!adding ==> (r == Err(AmountOverflow) <==> lo > 0 && exact / (lo * hi) >= TWO_128))
            && (adding && r == Err(AmountOverflow) ==> exact / (lo * hi) >= U128_MAX)
            && (r.Ok? && adding ==>
                  r.value == exact / (lo * hi) + if (liquidity * TWO_96) % (lo * hi) == 0 then 0 else 1)
            && (adding ==>
                  (r == Err(AmountOverflow) <==>
                     lo > 0 &&
                     (exact / (lo * hi) >= TWO_128 ||
                      (exact / (lo * hi) == U128_MAX && (liquidity * TWO_96) % (lo * hi) != 0))))
  {
    var (lo, hi) := if sqrtPriceA < sqrtPriceB then (sqrtPriceA, sqrtPriceB) else (sqrtPriceB, sqrtPriceA);
    assert lo == Min(sqrtPriceA, sqrtPriceB) && hi == Max(sqrtPriceA, sqrtPriceB);
    // The ordering makes this subtraction infallible; the error arm is dead.
    match CheckedSub(hi, lo, AmountUnderflow)
    case Err(e) => Err(e)
    case Ok(diff) =>
      var shifted := SaturatingShl96(liquidity);
      var denominator := WrappingMul256(lo, hi);
      Amount0Operands(liquidity, lo, hi, diff);
      if adding then
        MulDivRoundUp(shifted, diff, denominator)
      else
        MulDiv(shifted, diff, denominator)
  }

  /** The operands `GetAmount0` passes to the multiply-divide are L * 2^96, hi - lo and
      lo * hi, none of them wrapped or saturated. */
  lemma Amount0Operands(liquidity: U128, lo: U128, hi: U128, diff: U256)
    requires lo <= hi && diff == hi - lo
    ensures SaturatingShl96(liquidity) == liquidity * TWO_96
    ensures SaturatingShl96(liquidity) * diff == liquidity * TWO_96 * (hi - lo)
    ensures WrappingMul256(lo, hi) == lo * hi
    ensures WrappingMul256(lo, hi) == 0 <==> lo == 0
  {
    ShlNeverSaturates(liquidity);
    ProductNeverWraps256(lo, hi);
    if lo > 0 {
      MulLeRight(lo, 1, hi);
    }
  }

  /** `get_amount_1`: the amount of token 1 between two square-root prices, in either
      order: L * (hi - lo) / 2^96, the ceiling when `adding` and the floor otherwise. */
  function GetAmount1(sqrtPriceA: U128, sqrtPriceB: U128, liquidity: U128, adding: bool): (r: Result<U128>)
    ensures r.Err? ==> r.error == AmountOverflow
    ensures var exact := liquidity * (Max(sqrtPriceA, sqrtPriceB) - Min(sqrtPriceA, sqrtPriceB));
            && (adding ==> (r.Ok? <==> exact <= U128_MAX * TWO_96))
            && (!adding ==> (r.Ok? <==> exact < TWO_128 * TWO_96))
            && (r.Ok? && adding ==> exact <= r.value * TWO_96 < exact + TWO_96)
            && (r.Ok? && !adding ==> r.value * TWO_96 <= exact < r.value * TWO_96 + TWO_96)
  {
    var (lo, hi) := if sqrtPriceA < sqrtPriceB then (sqrtPriceA, sqrtPriceB) else (sqrtPriceB, sqrtPriceA);
    // The ordering makes this subtraction infallible; the error arm is dead.
    match CheckedSub(hi, lo, AmountUnderflow)
    case Err(e) => Err(e)
    case Ok(diff) =>
      ProductNeverWraps256(liquidity, diff);
      var product := WrappingMul256(liquidity, diff);
      if adding then
        var amount := DivCeil(product, TWO_96);
        CeilDiv(product, TWO_96, amount);
        TryU128(amount, AmountOverflow)
      else
        // `wrapping_shr(96)`: the shift amount is below 256, so this is a floor division.
        var amount := product / TWO_96;
        FloorDiv(product, TWO_96, amount);
        TryU128(amount, AmountOverflow)
  }

  /** `get_next_sqrt_ratio_from_amount_0`: the square-root price after `amount0` of token 0
      is added to (positive) or removed from (negative) the pool. With l = L * 2^96 the new
      price is l * P / (l + amount0 * P), rounded up by `MulDivRoundUp`. */
  function GetNextSqrtRatioFromAmount0(sqrtPrice: U128, liquidity: U128, amount0: I64): (r: Result<U128>)
    requires amount0 != I64_MIN
    ensures amount0 == 0 ==> r == Ok(sqrtPrice)
    ensures amount0 > 0 ==> (r.Err? <==> liquidity == 0 && sqrtPrice == 0)
    ensures amount0 > 0 && r.Err? ==> r.error == DivisionByZero
    ensures amount0 < 0 ==>
              (r == Err(AmountUnderflow) <==> -amount0 * sqrtPrice > liquidity * TWO_96)
    ensures amount0 < 0 ==>
              (r == Err(DivisionByZero) <==> -amount0 * sqrtPrice == liquidity * TWO_96)
    ensures amount0 < 0 ==>
              (r == Err(AmountOverflow) <==>
                 var l := liquidity * TWO_96;
                 var d := l + amount0 * sqrtPrice;
                 d > 0 && (l * sqrtPrice / d >= TWO_128 || (l * sqrtPrice / d == U128_MAX && l % d != 0)))
    ensures r.Ok? && amount0 != 0 ==>
              var l := liquidity * TWO_96;
              var d := l + amount0 * sqrtPrice;
              d > 0 && r.value * d >= l * sqrtPrice && r.value <= l * sqrtPrice / d + 1
    ensures r.Ok? && amount0 > 0 ==>
              var l := liquidity * TWO_96;
              r.value == if liquidity > 0 && sqrtPrice > 0 then l * sqrtPrice / (l + amount0 * sqrtPrice) + 1 else 0
    ensures r.Ok? && amount0 > 0 ==> r.value <= sqrtPrice
    ensures r.Ok? && amount0 < 0 ==> r.value >= sqrtPrice
    ensures r.Err? ==> r.error in {DivisionByZero, AmountOverflow, AmountUnderflow}
  {
    if amount0 == 0 then
      Ok(sqrtPrice)
    else
      var shifted := SaturatingShl96(liquidity);
      var amount := if amount0 > 0 then amount0 else Abs(amount0);
      var moved := WrappingMul256(amount, sqrtPrice);
      NextPrice0Operands(sqrtPrice, liquidity, amount0);
      var denominator :-
        if amount0 > 0 then CheckedAdd256(shifted, moved, AmountOverflow)
        else CheckedSub(shifted, moved, AmountUnderflow);
      NextPrice0RoundUp(shifted, sqrtPrice, amount0, denominator);
      MulDivRoundUp(shifted, sqrtPrice, denominator)
  }

  /** Removing token 0 gives l * P / d rounded up by the test on l alone: the floor, plus
      one exactly when l is not a multiple of the denominator d = l + amount0 * P. */
  lemma RemovedAmount0Value(sqrtPrice: U128, liquidity: U128, amount0: I64)
    requires amount0 < 0 && amount0 != I64_MIN
    requires GetNextSqrtRatioFromAmount0(sqrtPrice, liquidity, amount0).Ok?
    ensures var l := liquidity * TWO_96;
            var d := l + amount0 * sqrtPrice;
            && d > 0
            && GetNextSqrtRatioFromAmount0(sqrtPrice, liquidity, amount0).value
                 == l * sqrtPrice / d + if l % d == 0 then 0 else 1
  {
    NextPrice0Operands(sqrtPrice, liquidity, amount0);
  }

  /** The denominator `GetNextSqrtRatioFromAmount0` computes is L * 2^96 + amount0 * P: the
      shift and the product never wrap, the sum never overflows, and the difference fails
      exactly when more is removed than there is. */
  lemma NextPrice0Operands(sqrtPrice: U128, liquidity: U128, amount0: I64)
    requires amount0 != 0 && amount0 != I64_MIN
    ensures var shifted := SaturatingShl96(liquidity);
            var moved := WrappingMul256(if amount0 > 0 then amount0 else Abs(amount0), sqrtPrice);
            && shifted == liquidity * TWO_96
            && (amount0 > 0 ==> CheckedAdd256(shifted, moved, AmountOverflow) == Ok(shifted + amount0 * sqrtPrice))
            && (amount0 < 0 ==>
                  CheckedSub(shifted, moved, AmountUnderflow) ==
                    if -amount0 * sqrtPrice > shifted then Err(AmountUnderflow)
                    else Ok(shifted + amount0 * sqrtPrice))
  {
    ShlNeverSaturates(liquidity);
    var shifted := liquidity * TWO_96;
    var amount: nat := if amount0 > 0 then amount0 else -amount0;
    assert amount < TWO_64;
    ProductNeverWraps256(amount, sqrtPrice);
    var moved := amount * sqrtPrice;
    assert moved < TWO_64 * TWO_128 by {
      MulLt(amount, sqrtPrice, TWO_64, TWO_128);
    }
    assert shifted + moved < TWO_256;
    if amount0 < 0 {
      assert moved == -amount0 * sqrtPrice;
      assert shifted - moved == shifted + amount0 * sqrtPrice;
    } else {
      assert moved == amount0 * sqrtPrice;
    }
  }

  /** What `MulDivRoundUp(l, P, d)` gives for the denominator d = l + amount0 * P. */
  lemma NextPrice0RoundUp(l: U256, p: U128, amount0: int, d: U256)
    requires amount0 != 0 && d == l + amount0 * p
    ensures var r := MulDivRoundUp(l, p, d);
            && (amount0 > 0 ==> (r.Err? <==> l == 0 && p == 0))
            && (amount0 > 0 && r.Err? ==> r.error == DivisionByZero)
            && (amount0 > 0 && r.Ok? ==> r.value <= p)
            && (amount0 > 0 && r.Ok? ==> r.value == if l > 0 && p > 0 then l * p / d + 1 else 0)
            && (amount0 < 0 ==> (r == Err(DivisionByZero) <==> d == 0))
            && (amount0 < 0 ==>
                  (r == Err(AmountOverflow) <==>
                     d > 0 && (l * p / d >= TWO_128 || (l * p / d == U128_MAX && l % d != 0))))
            && (amount0 < 0 && r.Ok? ==> r.value >= p)
            && (r.Ok? ==> d > 0 && r.value * d >= l * p && r.value <= l * p / d + 1)
  {
    if amount0 > 0 {
      RoundUpAddedAmount0(l, p, amount0, d);
    } else if d > 0 {
      NextPrice0Bounds(l, p, amount0, d);
    }
  }

  lemma RoundUpAddedAmount0(l: U256, p: U128, amount0: int, d: U256)
    requires amount0 > 0 && d == l + amount0 * p
    ensures var r := MulDivRoundUp(l, p, d);
            && (r.Err? <==> l == 0 && p == 0)
            && (r.Err? ==> r.error == DivisionByZero)
            && (r.Ok? ==> r.value <= p)
            && (r.Ok? ==> r.value == if l > 0 && p > 0 then l * p / d + 1 else 0)
  {
    assert amount0 * p >= 0;
    if p == 0 || l == 0 {
      RoundUpZeroFactor(l, p, d);
    } else {
      assert amount0 * p > 0;
      NextPrice0Bounds(l, p, amount0, d);
      RoundUpNotMultiple(l, p, d);
    }
  }

  lemma RoundUpZeroFactor(l: U256, p: U128, d: U256)
    requires (p == 0 && d == l) || (l == 0 && d > 0)
    ensures MulDivRoundUp(l, p, d) == if d == 0 then Err(DivisionByZero) else Ok(0)
  {
    if d > 0 {
      assert l * p == 0;
      assert l % d == 0;
    }
  }

  lemma RoundUpNotMultiple(l: U256, p: U128, d: U256)
    requires 0 < d && l % d != 0 && l * p / d < p
    ensures MulDivRoundUp(l, p, d) == Ok(l * p / d + 1)
  {
  }

  /** How l * P / d compares with P once the denominator d = l + amount0 * P is known. */
  lemma NextPrice0Bounds(l: nat, p: nat, amount0: int, d: nat)
    requires d == l + amount0 * p && amount0 != 0
    ensures amount0 > 0 && d > 0 ==> l * p / d <= p
    ensures amount0 > 0 && l > 0 && p > 0 ==> l * p / d < p && l % d != 0
    ensures amount0 < 0 && d > 0 ==> l * p / d >= p
  {
    if amount0 > 0 && d > 0 {
      AddedAmount0Lowers(l, p, amount0, d);
    }
    if amount0 < 0 && d > 0 {
      RemovedAmount0Raises(l, p, amount0, d);
    }
  }

  lemma AddedAmount0Lowers(l: nat, p: nat, amount0: int, d: nat)
    requires d == l + amount0 * p && amount0 > 0 && d > 0
    ensures l * p / d <= p
    ensures l > 0 && p > 0 ==> l * p / d < p && l % d != 0
  {
    var n: nat := amount0;
    MulLeRight(p, 0, n);
    assert l <= d;
    MulLeRight(p, l, d);
    DivLe(l * p, d, p);
    if l > 0 && p > 0 {
      MulLeRight(p, 1, n);
      assert l + 1 <= d;
      MulLeRight(p, l + 1, d);
      assert p * (l + 1) == p * l + p;
      DivLt(l * p, d, p);
    }
  }

  lemma RemovedAmount0Raises(l: nat, p: nat, amount0: int, d: nat)
    requires d == l + amount0 * p && amount0 < 0 && d > 0
    ensures l * p / d >= p
  {
    assert d <= l by {
      MulLeRight(p, 0, -amount0);
      assert amount0 * p == -((-amount0) * p);
    }
    MulLeRight(p, d, l);
    DivGe(l * p, d, p);
  }

  /** `get_next_sqrt_ratio_from_amount_1`: the square-root price after `amount1` of token 1
      is added to (positive) or removed from (negative) the pool:
      (P * L + amount1 * 2^96) / L, rounded down. */
  function GetNextSqrtRatioFromAmount1(sqrtPrice: U128, liquidity: U128, amount1: I64): (r: Result<U128>)
    requires amount1 != I64_MIN
    ensures amount1 > 0 ==>
              (r == Err(AmountOverflow) <==> sqrtPrice * liquidity + amount1 * TWO_96 >= TWO_256)
    ensures amount1 <= 0 ==>
              (r == Err(AmountUnderflow) <==> -amount1 * TWO_96 > sqrtPrice * liquidity)
    ensures r == Err(DivisionByZero) <==> liquidity == 0 && amount1 >= 0
    ensures r == Err(PriceOverflow) <==>
              var n := sqrtPrice * liquidity + amount1 * TWO_96;
              liquidity > 0 && 0 <= n < TWO_256 && n / liquidity >= TWO_128
    ensures r.Ok? ==> liquidity > 0 && r.value == (sqrtPrice * liquidity + amount1 * TWO_96) / liquidity
    ensures r.Ok? && amount1 >= 0 ==> r.value >= sqrtPrice
    ensures r.Ok? && amount1 <= 0 ==> r.value <= sqrtPrice
    ensures r.Err? ==> r.error in {DivisionByZero, AmountOverflow, PriceOverflow, AmountUnderflow}
    ensures amount1 >= 0 ==> r != Err(AmountUnderflow)
  {
    ProductNeverWraps256(sqrtPrice, liquidity);
    var liquidityTimesPrice := WrappingMul256(sqrtPrice, liquidity);
    var amount := if amount1 > 0 then amount1 else Abs(amount1);
    ShlNeverSaturates(amount);
    var shiftedAmount := SaturatingShl96(amount);
    var numerator :-
      if amount1 > 0 then CheckedAdd256(liquidityTimesPrice, shiftedAmount, AmountOverflow)
      else CheckedSub(liquidityTimesPrice, shiftedAmount, AmountUnderflow);
    assert numerator == sqrtPrice * liquidity + amount1 * TWO_96;
    if liquidity == 0 then
      Err(DivisionByZero)
    else
      DivGe(numerator, liquidity, 0);
      var next := numerator / liquidity;
      assert amount1 >= 0 ==> next >= sqrtPrice by {
        NextPrice1Bounds(numerator, sqrtPrice, liquidity, amount1);
      }
      assert amount1 <= 0 ==> next <= sqrtPrice by {
        NextPrice1Bounds(numerator, sqrtPrice, liquidity, amount1);
      }
      TryU128(next, PriceOverflow)
  }

  /** How n / L compares with P when n = P * L + amount1 * 2^96. */
  lemma NextPrice1Bounds(n: nat, p: nat, liquidity: nat, amount1: int)
    requires liquidity > 0 && n == p * liquidity + amount1 * TWO_96
    ensures amount1 >= 0 ==> n / liquidity >= p
    ensures amount1 <= 0 ==> n / liquidity <= p
  {
    FloorDiv(n, liquidity, n / liquidity);
    if amount1 >= 0 && n / liquidity < p {
      MulLeRight(liquidity, n / liquidity + 1, p);
    }
    if amount1 <= 0 && n / liquidity > p {
      MulLeRight(liquidity, p, n / liquidity);
    }
  }
}
