/** The swap-step solver `get_delta_amounts` of `quote/swap_math.rs`: one exact-in or
    exact-out trade against a single liquidity range, capped at a target price. */
module SwapStep {
  import opened Errors
  import opened Uint
  import opened SwapMath

  /** The two conversions a step chooses between (the two `GetAmountFn` values of the source). */
  datatype AmountFn = GetAmount0Fn | GetAmount1Fn {
    function Apply(sqrtPriceA: U128, sqrtPriceB: U128, liquidity: U128, adding: bool): (r: Result<U128>)
      ensures r.Err? ==> r.error in {DivisionByZero, AmountOverflow}
    {
      match this
      case GetAmount0Fn => GetAmount0(sqrtPriceA, sqrtPriceB, liquidity, adding)
      case GetAmount1Fn => GetAmount1(sqrtPriceA, sqrtPriceB, liquidity, adding)
    }
  }

  /** (amount-in conversion, amount-out conversion): token 0 goes in when the price falls. */
  function SelectAmountFns(zeroForOne: bool): (r: (AmountFn, AmountFn))
    ensures r.0 != r.1
    ensures r.0 == GetAmount0Fn <==> zeroForOne
  {
    if zeroForOne then (GetAmount0Fn, GetAmount1Fn) else (GetAmount1Fn, GetAmount0Fn)
  }

  /** New square-root price, amount paid in, amount paid out and fee, in that order. */
  datatype SwapStep = SwapStep(newSqrtPrice: U128, amountIn: U64, amountOut: U64, feeAmount: U64)

  /** An `AmountOverflow` while probing the amount that reaches the target means the target
      cannot be reached; it is read as the largest amount. Every other error stays. */
  function OverflowAsMax(probe: Result<U128>): (r: Result<U128>)
    ensures probe == Err(AmountOverflow) ==> r == Ok(U128_MAX)
    ensures probe != Err(AmountOverflow) ==> r == probe
  {
    match probe
    case Err(AmountOverflow) => Ok(U128_MAX)
    case _ => probe
  }

  /** The input needed to move the price all the way to the target, rounded up. */
  function MaxAmountIn(sqrtPrice: U128, targetSqrtPrice: U128, liquidity: U128): (r: Result<U128>)
    ensures r.Err? <==> targetSqrtPrice < sqrtPrice && targetSqrtPrice == 0
    ensures r.Err? ==> r.error == DivisionByZero
    ensures r.Ok? && r.value < U128_MAX ==>
              SelectAmountFns(targetSqrtPrice < sqrtPrice).0.Apply(sqrtPrice, targetSqrtPrice, liquidity, true) == r
  {
    var (amountInFn, _) := SelectAmountFns(targetSqrtPrice < sqrtPrice);
    OverflowAsMax(amountInFn.Apply(sqrtPrice, targetSqrtPrice, liquidity, true))
  }

  /** The output released by moving the price all the way to the target, rounded down. */
  function MaxAmountOut(sqrtPrice: U128, targetSqrtPrice: U128, liquidity: U128): (r: Result<U128>)
    ensures r.Err? <==> sqrtPrice <= targetSqrtPrice && sqrtPrice == 0
    ensures r.Err? ==> r.error == DivisionByZero
    ensures r.Ok? && r.value < U128_MAX ==>
              SelectAmountFns(targetSqrtPrice < sqrtPrice).1.Apply(sqrtPrice, targetSqrtPrice, liquidity, false) == r
  {
    var (_, amountOutFn) := SelectAmountFns(targetSqrtPrice < sqrtPrice);
    OverflowAsMax(amountOutFn.Apply(sqrtPrice, targetSqrtPrice, liquidity, false))
  }

  /** The input an exact-in offer leaves once the fee is taken: (10^6 - fee) * offer / 10^6. */
  function AmountInAvailable(offered: nat, fee: nat): (r: nat)
    requires fee <= MAX_FEE_U128
    ensures r <= offered
  {
    AvailableAtMostOffered(MAX_FEE_U128 - fee, offered);
    (MAX_FEE_U128 - fee) * offered / MAX_FEE_U128
  }

  /** What the source must not meet: `i64::MIN.abs()`, the unchecked `MAX_FEE_U128 - fee` of
      the exact-out fee and the `div_ceil` by a zero fee inverse. */
  predicate NoPanic(sqrtPrice: U128, targetSqrtPrice: U128, liquidity: U128, deltaAmount: I64, fee: U32) {
    && deltaAmount != I64_MIN
    && (deltaAmount < 0 ==> fee < MAX_FEE_U128)
    && (deltaAmount > 0 && fee == MAX_FEE_U128 ==> MaxAmountIn(sqrtPrice, targetSqrtPrice, liquidity) != Ok(0))
  }

  /** Exact-in below the target: the price moves by the fee-free input, the input is
      recomputed from the price moved, and the fee is what is left of the offer. */
  function FillExactInPartially(sqrtPrice: U128, liquidity: U128, offered: U64, available: nat, zeroForOne: bool)
    : (r: Result<(U128, U64, U64)>)
    requires available <= offered < TWO_63
    ensures r.Ok? ==> r.value.1 + r.value.2 == offered
    ensures r.Ok? ==> SelectAmountFns(zeroForOne).0.Apply(sqrtPrice, r.value.0, liquidity, true) == Ok(r.value.1)
  {
    // `available` is at most the offer, so this conversion cannot fail.
    var amount :- TryI64(available, AmountInOverflow);
    var newSqrtPrice :-
      if zeroForOne then GetNextSqrtRatioFromAmount0(sqrtPrice, liquidity, amount)
      else GetNextSqrtRatioFromAmount1(sqrtPrice, liquidity, amount);
    var (amountInFn, _) := SelectAmountFns(zeroForOne);
    var amountInWide :- amountInFn.Apply(sqrtPrice, newSqrtPrice, liquidity, true);
    var amountIn :- TryU64(amountInWide, AmountInOverflow);
    var feeAmount :- CheckedSub(offered, amountIn, AmountUnderflow);
    Ok((newSqrtPrice, amountIn, feeAmount))
  }

  /** Exact-in reaching the target: the input is the amount to the target and the fee is
      charged on top of it at the fee rate. */
  function FillExactInToTarget(targetSqrtPrice: U128, maxAmountIn: U128, available: nat, fee: U32, feeInverse: nat)
    : (r: Result<(U128, U64, U64)>)
    requires 0 < feeInverse && maxAmountIn <= available < TWO_63
    ensures r.Ok? || r == Err(FeeAmountOverflow)
    ensures r.Ok? ==> r.value.0 == targetSqrtPrice && r.value.1 == maxAmountIn
    ensures r.Ok? ==> maxAmountIn * fee <= r.value.2 * feeInverse < maxAmountIn * fee + feeInverse
  {
    // `max_amount_in as u64` keeps the value: it is at most `available`.
    var amountIn := TruncateU64(maxAmountIn);
    // A product of a 63-bit amount and a 32-bit fee fits in 128 bits.
    assert maxAmountIn * fee < TWO_128 by {
      MulLt(maxAmountIn, fee, TWO_64, TWO_32);
    }
    match CheckedMul128(maxAmountIn, fee, AmountOverflow)
    case Err(e) => Err(e)
    case Ok(feeNumerator) =>
      CeilDiv(feeNumerator, feeInverse, DivCeil(feeNumerator, feeInverse));
      var feeAmount :- TryU64(DivCeil(feeNumerator, feeInverse), FeeAmountOverflow);
      Ok((targetSqrtPrice, amountIn, feeAmount))
  }

  /** Exact-in: a partial fill when the amount to the target exceeds what the offer leaves
      after the fee, the fill to the target otherwise. */
  function FillExactIn(sqrtPrice: U128, targetSqrtPrice: U128, liquidity: U128, maxAmountIn: U128,
                       offered: U64, available: nat, fee: U32, feeInverse: nat, zeroForOne: bool)
    : (r: Result<(U128, U64, U64)>)
    requires available <= offered < TWO_63
    requires maxAmountIn <= available ==> 0 < feeInverse
    ensures r.Ok? && maxAmountIn <= available ==> r.value.0 == targetSqrtPrice && r.value.1 == maxAmountIn
    ensures r.Ok? && available < maxAmountIn ==> r.value.1 + r.value.2 == offered
  {
    if maxAmountIn > available then
      FillExactInPartially(sqrtPrice, liquidity, offered, available, zeroForOne)
    else
      FillExactInToTarget(targetSqrtPrice, maxAmountIn, available, fee, feeInverse)
  }

  /** The exact-in half of `get_delta_amounts` (an offer of `deltaAmount` input). */
  function ExactIn(sqrtPrice: U128, targetSqrtPrice: U128, liquidity: U128, deltaAmount: I64, fee: U32)
    : (r: Result<SwapStep>)
    requires deltaAmount > 0
    requires fee == MAX_FEE_U128 ==> MaxAmountIn(sqrtPrice, targetSqrtPrice, liquidity) != Ok(0)
    ensures fee > MAX_FEE_U128 ==> r == Err(AmountUnderflow)
    ensures r.Ok? ==> fee <= MAX_FEE_U128 && MaxAmountIn(sqrtPrice, targetSqrtPrice, liquidity).Ok?
    ensures r.Ok? ==>
              SelectAmountFns(targetSqrtPrice < sqrtPrice).1.Apply(sqrtPrice, r.value.newSqrtPrice, liquidity, false)
                == Ok(r.value.amountOut)
  {
    var zeroForOne := targetSqrtPrice < sqrtPrice;
    var (_, amountOutFn) := SelectAmountFns(zeroForOne);
    var offered: U64 := deltaAmount;
    var feeInverse :- CheckedSub(MAX_FEE_U128, fee, AmountUnderflow);
    // At most 10^6 * 2^63: the multiplication cannot overflow.
    assert feeInverse * offered < TWO_128 by {
      MulLt(feeInverse, offered, MAX_FEE_U128 + 1, TWO_63);
    }
    match CheckedMul128(feeInverse, offered, AmountOverflow)
    case Err(e) => Err(e)
    case Ok(_) =>
      // The product divided by 10^6: `checked_div` by that constant cannot fail.
      var available := AmountInAvailable(offered, fee);
      AvailableAtMostOffered(feeInverse, offered);
      assert fee == MAX_FEE_U128 ==> available == 0;
      var maxAmountIn :- MaxAmountIn(sqrtPrice, targetSqrtPrice, liquidity);
      var fill :- FillExactIn(sqrtPrice, targetSqrtPrice, liquidity, maxAmountIn, offered, available, fee, feeInverse, zeroForOne);
      var amountOutWide :- amountOutFn.Apply(sqrtPrice, fill.0, liquidity, false);
      var amountOut :- TryU64(amountOutWide, AmountOutOverflow);
      Ok(SwapStep(fill.0, fill.1, amountOut, fill.2))
  }

  lemma AvailableAtMostOffered(feeInverse: nat, offered: nat)
    requires feeInverse <= MAX_FEE_U128
    ensures feeInverse * offered / MAX_FEE_U128 <= offered
  {
    MulLeRight(offered, feeInverse, MAX_FEE_U128);
    DivLe(feeInverse * offered, MAX_FEE_U128, offered);
  }

  /** Exact-out: below the target the price moves by the whole demand; otherwise the price
      is the target and the output is the amount to it. */
  function FillExactOut(sqrtPrice: U128, targetSqrtPrice: U128, liquidity: U128, maxAmountOut: U128,
                        deltaAmount: I64, zeroForOne: bool): (r: Result<(U128, U64)>)
    requires I64_MIN < deltaAmount < 0
    ensures maxAmountOut <= -deltaAmount ==> r == Ok((targetSqrtPrice, maxAmountOut))
    ensures -deltaAmount < maxAmountOut && r.Ok? ==> r.value.1 == -deltaAmount
  {
    var amountOutToFill: U64 := -deltaAmount;
    if maxAmountOut > amountOutToFill then
      var newSqrtPrice :-
        if zeroForOne then GetNextSqrtRatioFromAmount1(sqrtPrice, liquidity, deltaAmount)
        else GetNextSqrtRatioFromAmount0(sqrtPrice, liquidity, deltaAmount);
      Ok((newSqrtPrice, amountOutToFill))
    else
      // `max_amount_out as u64` keeps the value: it is at most the amount to fill.
      Ok((targetSqrtPrice, TruncateU64(maxAmountOut)))
  }

  /** The exact-out half of `get_delta_amounts` (a demand for `-deltaAmount` output). */
  function ExactOut(sqrtPrice: U128, targetSqrtPrice: U128, liquidity: U128, deltaAmount: I64, fee: U32)
    : (r: Result<SwapStep>)
    requires I64_MIN < deltaAmount < 0 && fee < MAX_FEE_U128
    ensures r.Ok? ==> MaxAmountOut(sqrtPrice, targetSqrtPrice, liquidity).Ok?
    ensures r.Ok? ==>
              SelectAmountFns(targetSqrtPrice < sqrtPrice).0.Apply(sqrtPrice, r.value.newSqrtPrice, liquidity, true)
                == Ok(r.value.amountIn)
    ensures r.Ok? ==> FeeOnTop(r.value.amountIn, fee) == Ok(r.value.feeAmount)
    ensures r.Err? ==> r.error != AmountOutOverflow
  {
    var zeroForOne := targetSqrtPrice < sqrtPrice;
    var (amountInFn, _) := SelectAmountFns(zeroForOne);
    var maxAmountOut :- MaxAmountOut(sqrtPrice, targetSqrtPrice, liquidity);
    var fill :- FillExactOut(sqrtPrice, targetSqrtPrice, liquidity, maxAmountOut, deltaAmount, zeroForOne);
    var amountInWide :- amountInFn.Apply(sqrtPrice, fill.0, liquidity, true);
    var amountIn :- TryU64(amountInWide, AmountInOverflow);
    var feeAmount :- FeeOnTop(amountIn, fee);
    Ok(SwapStep(fill.0, amountIn, fill.1, feeAmount))
  }

  /** The exact-out fee: the fee rate applied on top of the input, so that the fee is
      `fee / 10^6` of input plus fee, rounded up. */
  function FeeOnTop(amountIn: U64, fee: U32): (r: Result<U64>)
    requires fee < MAX_FEE_U128
    ensures r.Ok? || r == Err(FeeAmountOverflow)
    ensures r == Err(FeeAmountOverflow) <==> amountIn * fee > (TWO_64 - 1) * (MAX_FEE_U128 - fee)
    ensures r.Ok? ==>
              var feeInverse := MAX_FEE_U128 - fee;
              amountIn * fee <= r.value * feeInverse < amountIn * fee + feeInverse
  {
    // The 128-bit product of the source never overflows.
    assert amountIn * fee < TWO_128 by {
      MulLt(amountIn, fee, TWO_64, TWO_32);
    }
    var feeAmount := DivCeil(amountIn * fee, MAX_FEE_U128 - fee);
    CeilDiv(amountIn * fee, MAX_FEE_U128 - fee, feeAmount);
    CeilFitsU64(amountIn * fee, MAX_FEE_U128 - fee, feeAmount);
    TryU64(feeAmount, FeeAmountOverflow)
  }

  /** `get_delta_amounts`: a positive `deltaAmount` offers that much input (exact-in), a
      negative one demands that much output (exact-out); the price never moves past
      `targetSqrtPrice`. The direction is zero-for-one when the target is below the price. */
  function GetDeltaAmounts(sqrtPrice: U128, targetSqrtPrice: U128, liquidity: U128, deltaAmount: I64, fee: U32)
    : (r: Result<SwapStep>)
    requires NoPanic(sqrtPrice, targetSqrtPrice, liquidity, deltaAmount, fee)
    ensures deltaAmount == 0 ==> r == Ok(SwapStep(sqrtPrice, 0, 0, 0))
  {
    if deltaAmount > 0 then
      ExactIn(sqrtPrice, targetSqrtPrice, liquidity, deltaAmount, fee)
    else if deltaAmount == 0 then
      Ok(SwapStep(sqrtPrice, 0, 0, 0))
    else
      ExactOut(sqrtPrice, targetSqrtPrice, liquidity, deltaAmount, fee)
  }
}
