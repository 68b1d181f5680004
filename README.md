# Token Mill v2 swap-step quoting, in Dafny

This project models the quoting math of the Token Mill v2 SDK (`quote/math.rs` and
`quote/swap_math.rs`). It is the exact integer arithmetic that prices one swap step against
a single concentrated-liquidity range. Prices are square roots in Q64.96 fixed point
(`SQRT_PRICE_SHIFT = 96`); fees are in parts per million (`MAX_FEE_U128 = 1_000_000`).

The model is pure: every Rust function becomes a Dafny `function` returning a `Result`. The
`Result` carries one of seven named errors: `DivisionByZero`, `AmountOverflow`,
`AmountUnderflow`, `PriceOverflow`, `AmountInOverflow`, `AmountOutOverflow` and
`FeeAmountOverflow`. A `?` in the source is Dafny's `:-`.

Files:

- `errors.dfy` holds the error type and `Result`.
- `uint.dfy` holds the fixed-width integer types (`u32` … `U512`, `i64`) as bounded subsets
  of the integers. It writes out the checked, wrapping, saturating and truncating operations
  the source uses. It also has small lemmas about products, floors and ceilings.
- `math.rs` becomes `math.dfy` (`QuoteMath`).
- The conversions of `swap_math.rs` are in `swap_math.dfy` (`SwapMath`).
- The step solver `get_delta_amounts` is in `swap_step.dfy` (`SwapStep`).
- The theorems about the solver are in `swap_step_properties.dfy` (`SwapStepProperties`).

`get_delta_amounts` is written as a few functions:

- The `GetAmountFn` pair of functions becomes the datatype `AmountFn`, chosen by `SelectAmountFns`.
- The probe "amount to reach the target" becomes `MaxAmountIn` / `MaxAmountOut`.
  `OverflowAsMax` models the downcast match that turns `AmountOverflow` into `u128::MAX`.
- The two exact-in branches become `FillExactInPartially` and `FillExactInToTarget`.
  `FillExactIn` chooses between them.
- The exact-out branches become `FillExactOut`.
- The exact-out fee becomes `FeeOnTop`.
- Each fill is single-assignment code in the source, so each is a plain function.

Behaviour worth knowing. Each claim that names a member is proved by that member:

- **The round-up quirk.** `mul_div_round_up` adds one whenever the first factor `x`, not the
  product, is not a multiple of the denominator.
  - It models this as written. It is never below the exact quotient, and can exceed the
    ceiling by one (`RoundUpTestsFirstFactorOnly`: 3·2/2 rounds up to 4).
  - So the rounded-up token 0 amount between a price and itself can be 1
    (`EmptyIntervalRoundsUpToOne`).
  - This is why an exact-in step that stops short of the target charges at most
    `max(available, 1)` as input.
- **Nothing moves at the target.** When the start price already equals the target, the
  price is nonzero and the fee is below 10^6, every request returns the price unchanged
  with zero amounts and zero fee (`NoMovementAtTarget`).
  - Both conditions are needed. At price 0 the token 0 conversion divides by zero, so every
    nonzero request fails with `DivisionByZero` (`ZeroPriceFails`). For exact-out that
    conversion is the probe. For exact-in the probe is the token 1 conversion and returns 0,
    and the failure comes from the output conversion (swap_math.rs:88).
  - An exact-in fee above 10^6 fails the fee subtraction with `AmountUnderflow`
    (`ExactInErrors`).
  - The amount to the target is then 0, and the "target reached" branch is taken.
  - So an exact-in buy of 10^9 at 1% whose target is its own lower bound spends nothing
    (`NoMovementAtLowerBound`). It does not split the offer into input plus fee.
  - This follows the code. A reading where such a buy uses the whole offer does not match it.
- **Panics are preconditions.** These source paths panic, so the model requires that they
  are not reached (`NoPanic`):
  - `i64::abs` of `i64::MIN` in the price updates (swap_math.rs:217, 235);
  - the exact-out fee at a fee of at least 10^6 (swap_math.rs:130). At exactly 10^6 the
    unchecked `MAX_FEE_U128 - fee` is 0 and `div_ceil` by 0 panics. Above 10^6 the
    subtraction underflows: a panic when overflow checks are on, and otherwise a wrapped,
    huge divisor that makes the fee 0 or 1. `NoPanic` excludes both cases;
  - the `div_ceil` by a zero fee inverse, exact-in at a 100% fee (swap_math.rs:83), which
    happens exactly when the amount to the target is 0.
- **Widths.** The 256-bit `*` of `ruint` wraps; the model writes the 256- and 512-bit
  products as wrapping and proves that they never wrap at the widths used. It also proves
  that `saturating_shl(96)` of a 128-bit liquidity never saturates, and that a shift by
  `SQRT_PRICE_SHIFT` is a multiplication by 2^96 (`SqrtPriceScale`). The reduction modulo 2^N
  behind wrapping and `as u64` is `Reduce`, repeated subtraction. `ReduceIsModulo` proves it
  is the remainder `%`.

## Model

| member | source | states |
|---|---|---|
| Uint.ShlNeverSaturates | token-mill-v2-sdk/src/quote/swap_math.rs:158 | `liquidity << 96` of a 128-bit liquidity never saturates: it is liquidity·2^96, below 2^224 |
| Uint.ProductNeverWraps256 | token-mill-v2-sdk/src/quote/swap_math.rs:160 | the 256-bit product of two 128-bit values is the exact product |
| Uint.ProductNeverWraps512 | token-mill-v2-sdk/src/quote/math.rs:10-14 | the 512-bit wrapping product of two 256-bit values is the exact product |
| Uint.ReduceIsModulo | token-mill-v2-sdk/src/quote/math.rs:14 | the reduction that wrapping multiplication applies is the remainder modulo 2^N |
| Uint.TruncateU64 | token-mill-v2-sdk/src/quote/swap_math.rs:77 | `as u64` keeps every value below 2^64 |
| QuoteMath.MulDiv | token-mill-v2-sdk/src/quote/math.rs:5-21 | `DivisionByZero` exactly when the denominator is 0; `AmountOverflow` exactly when ⌊x·y/d⌋ ≥ 2^128; otherwise ⌊x·y/d⌋; no other error |
| QuoteMath.MulDivRoundUp | token-mill-v2-sdk/src/quote/math.rs:23-33 | `MulDiv`'s errors propagate; a result is `MulDiv`'s or one more, equal to it exactly when x is a multiple of d, never below x·y/d; `AmountOverflow` exactly when the quotient is too wide or is `u128::MAX` and needs the increment |
| QuoteMath.RoundUpTestsFirstFactorOnly | token-mill-v2-sdk/src/quote/math.rs:26 | the test is on x alone: x=3, y=2, d=2 gives 4 although 3·2/2 is exactly 3 |
| SwapMath.GetAmount0 | token-mill-v2-sdk/src/quote/swap_math.rs:140-169 | amount L·2^96·(hi−lo)/(lo·hi) for the prices in either order: floored when removing; when adding, the floor plus one exactly when L·2^96 is not a multiple of lo·hi (never below the exact value); `DivisionByZero` exactly when the lower price is 0; `AmountOverflow` exactly when the floor, or the incremented floor when adding, does not fit in 128 bits; the `AmountUnderflow` of the ordering never happens |
| SwapMath.GetAmount1 | token-mill-v2-sdk/src/quote/swap_math.rs:173-199 | amount L·(hi−lo)/2^96 for the prices in either order: the ceiling when adding, the floor when removing; fails, only with `AmountOverflow`, exactly when that does not fit in 128 bits |
| SwapMath.GetNextSqrtRatioFromAmount0 | token-mill-v2-sdk/src/quote/swap_math.rs:201-222 | unchanged price for amount 0; new price l·P/(l+a·P) rounded up for l = L·2^96; adding never raises and removing never lowers the price; adding fails, with `DivisionByZero`, exactly when L and P are both 0; removing fails with `AmountUnderflow` exactly when a·P exceeds l, with `DivisionByZero` exactly when it equals l, and with `AmountOverflow` exactly when the rounded-up quotient does not fit in 128 bits |
| SwapMath.GetNextSqrtRatioFromAmount1 | token-mill-v2-sdk/src/quote/swap_math.rs:224-244 | new price ⌊(P·L + a·2^96)/L⌋; adding never lowers and removing never raises the price; `AmountOverflow`, `AmountUnderflow`, `DivisionByZero` and `PriceOverflow` each exactly under its condition |
| SwapMath.RemovedAmount0Value | token-mill-v2-sdk/src/quote/swap_math.rs:213-221 | removing token 0 gives the floor of l·P/d plus one exactly when l is not a multiple of d = l + a·P |
| SwapStep.FeeOnTop | token-mill-v2-sdk/src/quote/swap_math.rs:129-132 | the exact-out fee is ⌈amountIn·fee/(10^6 − fee)⌉; `FeeAmountOverflow`, its only error, exactly when amountIn·fee exceeds (2^64 − 1)·(10^6 − fee) |
| SwapStep.AmountInAvailable | token-mill-v2-sdk/src/quote/swap_math.rs:35-39 | the input an exact-in offer leaves after the fee is never more than the offer |
| SwapMath.SqrtPriceScale | token-mill-v2-sdk/src/quote/swap_math.rs:10 | a shift by `SQRT_PRICE_SHIFT` multiplies by 2^96, the scale of every conversion |
| SwapStep.AmountFn.Apply | token-mill-v2-sdk/src/quote/swap_math.rs:7 | a conversion fails only with `DivisionByZero` or `AmountOverflow` |
| SwapStep.SelectAmountFns | token-mill-v2-sdk/src/quote/swap_math.rs:24-28 | token 0 goes in exactly when the price falls (zero-for-one); the input and output conversions always differ |
| SwapStep.OverflowAsMax | token-mill-v2-sdk/src/quote/swap_math.rs:43-53 | an `AmountOverflow` becomes `u128::MAX`; every other result, success or error, is kept |
| SwapStep.MaxAmountIn | token-mill-v2-sdk/src/quote/swap_math.rs:43-53 | the probe to the target fails, only with `DivisionByZero`, exactly when the price falls to a target of 0; a result below `u128::MAX` is the rounded-up input conversion itself |
| SwapStep.MaxAmountOut | token-mill-v2-sdk/src/quote/swap_math.rs:100-110 | the probe fails, only with `DivisionByZero`, exactly when the price rises from 0; a result below `u128::MAX` is the rounded-down output conversion itself |
| SwapStep.FillExactInPartially | token-mill-v2-sdk/src/quote/swap_math.rs:55-73 | a partial exact-in fill splits the whole offer into input and fee; the input is the rounded-up amount for the price moved |
| SwapStep.FillExactInToTarget | token-mill-v2-sdk/src/quote/swap_math.rs:74-86 | the fill to the target ends at the target with the amount to it as input; the fee is ⌈input·fee/(10^6 − fee)⌉; the fee product never overflows, so only `FeeAmountOverflow` can fail |
| SwapStep.FillExactIn | token-mill-v2-sdk/src/quote/swap_math.rs:55-86 | the branch at :55: when the amount to the target is within the available input, a successful fill ends at the target with that amount as input; otherwise it splits the whole offer into input and fee |
| SwapStep.ExactIn | token-mill-v2-sdk/src/quote/swap_math.rs:30-90 | a fee above 10^6 fails with `AmountUnderflow`; a successful step has a successful probe and pays the rounded-down output for the price moved; the rest of its contract is `ExactInShape`, `ExactInSettles` and `ExactInErrors` |
| SwapStep.ExactOut | token-mill-v2-sdk/src/quote/swap_math.rs:91-133 | a successful step has a successful probe, takes the rounded-up input for the price moved and the `FeeOnTop` fee; it never fails with `AmountOutOverflow`; the rest is `ExactOutShape` and `ExactOutSettles` |
| SwapStep.NoPanic | token-mill-v2-sdk/src/quote/swap_math.rs:83 | the three panic-free conditions: the amount is not `i64::MIN` (`abs` at :217, :235); exact-out has a fee below 10^6 (:130); exact-in at a fee of exactly 10^6 has a nonzero amount to the target (`div_ceil` by 0 at :83) |
| SwapStep.FillExactOut | token-mill-v2-sdk/src/quote/swap_math.rs:112-123 | when the amount to the target is within the demand, the fill is the target and that amount; otherwise a successful fill pays out the whole demand |
| SwapStep.GetDeltaAmounts | token-mill-v2-sdk/src/quote/swap_math.rs:12-136 | a zero amount returns the price unchanged with zero amounts and fee; a positive amount is `ExactIn` and a negative one `ExactOut`, whose properties are the `SwapStepProperties` lemmas |
| SwapStepProperties.Amount0InputRoundTrip | token-mill-v2-sdk/src/quote/swap_math.rs:201-222 | adding a token 0 amount moves the price to where the rounded-up token 0 amount back to the start is at most that amount |
| SwapStepProperties.Amount1InputRoundTrip | token-mill-v2-sdk/src/quote/swap_math.rs:224-244 | the same for token 1 |
| SwapStepProperties.Amount0OutputRoundTrip | token-mill-v2-sdk/src/quote/swap_math.rs:201-222 | removing a token 0 amount moves the price to where the rounded-down token 0 amount back is at least what was removed |
| SwapStepProperties.Amount1OutputRoundTrip | token-mill-v2-sdk/src/quote/swap_math.rs:224-244 | the same for token 1 |
| SwapStepProperties.AmountsAtOnePrice | token-mill-v2-sdk/src/quote/swap_math.rs:140-199 | between a price and itself the token 1 amounts and the floored token 0 amount are 0; the rounded-up token 0 amount is at most 1 |
| SwapStepProperties.EmptyIntervalRoundsUpToOne | token-mill-v2-sdk/src/quote/swap_math.rs:156-161 | the rounded-up token 0 amount between a price and itself can be 1 |
| SwapStepProperties.Amount0Rounding | token-mill-v2-sdk/src/quote/swap_math.rs:146-168 | the token 0 amount does not depend on the order of the prices; rounding up gives the floored amount or one more |
| SwapStepProperties.Amount1Rounding | token-mill-v2-sdk/src/quote/swap_math.rs:179-198 | the same for token 1 |
| SwapStepProperties.PartialFillIn | token-mill-v2-sdk/src/quote/swap_math.rs:55-73 | exact-in short of the target: the price stays between start and target; input plus fee is the whole offer; the input is the rounded-up amount for the price moved and at most max(available, 1); the `AmountInOverflow` and `AmountUnderflow` of this branch never happen |
| SwapStepProperties.FillInToTarget | token-mill-v2-sdk/src/quote/swap_math.rs:74-86 | exact-in reaching the target: never fails; price is the target, input the amount to it, fee ⌈input·fee/(10^6 − fee)⌉, and input plus fee within the offer |
| SwapStepProperties.ExactInShape | token-mill-v2-sdk/src/quote/swap_math.rs:30-90 | a successful exact-in step has a fee of at most 10^6, a successful probe and an available input within the offer; it carries the fill's price, input and fee and the rounded-down output for the price moved |
| SwapStepProperties.FillInErrors | token-mill-v2-sdk/src/quote/swap_math.rs:55-86 | the exact-in fill fails only with `DivisionByZero`, `AmountOverflow` or `PriceOverflow`; the fee inverse is nonzero whenever the fill reaches the target |
| SwapStepProperties.ExactInSettles | token-mill-v2-sdk/src/quote/swap_math.rs:30-90 | an exact-in step stays between start and target; input and output are the rounded-up and floored amounts for the price moved; input plus fee is at most the offer, and all of it below the target; at the target, the input is the amount to it and the fee is charged on top |
| SwapStepProperties.ExactInErrors | token-mill-v2-sdk/src/quote/swap_math.rs:30-90 | exact-in fails with `AmountUnderflow` exactly when the fee is above 10^6, and never with `AmountInOverflow` or `FeeAmountOverflow` |
| SwapStepProperties.ExactInOverflowedProbe | token-mill-v2-sdk/src/quote/swap_math.rs:41-53 | a probe to the target that overflows reads as `u128::MAX`, and the exact-in step then spends the whole offer as input plus fee |
| SwapStepProperties.ExactOutOverflowedProbe | token-mill-v2-sdk/src/quote/swap_math.rs:98-110 | a probe that overflows reads as `u128::MAX`, and the exact-out step then pays out the whole demand |
| SwapStepProperties.FillOut | token-mill-v2-sdk/src/quote/swap_math.rs:112-123 | exact-out fill: the price stays between start and target; short of the target it pays the whole demand, covered by the floored output of the price moved; otherwise it stops at the target and pays the amount to it |
| SwapStepProperties.ExactOutShape | token-mill-v2-sdk/src/quote/swap_math.rs:91-133 | a successful exact-out step has a successful probe; it carries the fill's price and output, the rounded-up input for the price moved and the fee on top of it |
| SwapStepProperties.ExactOutSettles | token-mill-v2-sdk/src/quote/swap_math.rs:95-132 | an exact-out step stays between start and target; the input is the rounded-up amount for the price moved, with the fee on top; the output is at most the demand and covered by the price moved; all of the demand below the target, the amount to the target at it |
| SwapStepProperties.GetDeltaAmountsStaysInRange | token-mill-v2-sdk/src/quote/swap_math.rs:12-136 | the new price lies between the start price and the target; exact-in spends at most the offer; exact-out pays at most the demand |
| SwapStepProperties.ZeroPriceFails | token-mill-v2-sdk/src/quote/swap_math.rs:24-88 | at price and target 0, the input probe returns 0, the output probe fails, and every nonzero request fails with `DivisionByZero` |
| SwapStepProperties.NoMovementAtTarget | token-mill-v2-sdk/src/quote/swap_math.rs:12-136 | with the target equal to a nonzero price and a fee below 100%, any amount returns the price unchanged and zero amounts and fee |
| SwapStepProperties.NoMovementAtLowerBound | token-mill-v2-sdk/src/test_utils/constants.rs:21-23 | the test market's lower price as both price and target, 10^9 offered at the 1% test fee: nothing moves |

## Left out

- `jupiter/mod.rs` (aggregator adapter: account decoding, account metas, a quote entry
  point that is not part of this model), `test_utils/` (a VM sandbox and instruction
  builders) and `vanity/` (HTTP requests and serialisation) are I/O and foreign calls. Only
  two constants of `test_utils/constants.rs` appear, in `NoMovementAtLowerBound`.
- The `anyhow` error boxing and `downcast_ref` are replaced by a plain error datatype.
  An error match (`OverflowAsMax`) stands for the downcast.
- Panics are not modelled as outcomes. The callers of the functions below must rule them
  out. Debug-build overflow panics of unchecked arithmetic are not modelled either.
  - The unchecked 128-bit product `u128::from(amount_in) * u128::from(fee)`
    (swap_math.rs:130) is proved not to overflow, in `FeeOnTop`.
  - The unchecked `MAX_FEE_U128 - u128::from(fee)` next to it is not proved safe.
    `NoPanic` excludes every fee of 10^6 or more by a precondition. That includes the
    fees above 10^6 for which a build without overflow checks returns a wrapped fee of 0
    or 1; the model does not describe that outcome.
- GetNextSqrtRatioFromAmount0: requires the amount is not `i64::MIN`, where the source's
  `abs` panics.
- GetNextSqrtRatioFromAmount1: requires the amount is not `i64::MIN`, for the same reason.
- GetDeltaAmounts: requires the amount is not `i64::MIN`, although an exact-out request
  reaching its target would not call `abs` and would not panic.
- GetDeltaAmounts: requires a fee below 10^6 for exact-out, although an earlier error (a
  failed probe, price update or input conversion) would be returned before the panic.
- ExactOutSettles: like the other exact-out lemmas it speaks only of successful steps; when
  an exact-out step fails is stated only for its parts (`FeeOnTop`, `FillOut`, the
  conversions and price updates), not for the step as a whole.
- ExactInErrors: does not list when the remaining errors (`DivisionByZero`, `AmountOverflow`,
  `PriceOverflow`, `AmountOutOverflow`) occur, only that nothing else can.
