/** The checked multiply-then-divide primitives of the quote math (`quote/math.rs`). */
module QuoteMath {
  import opened Errors
  import opened Uint

  /** `mul_div`: the floor of `x * y / denominator`, computed over 512-bit intermediates and
      narrowed to 128 bits. */
  function MulDiv(x: U256, y: U256, denominator: U256): (r: Result<U128>)
    ensures r == Err(DivisionByZero) <==> denominator == 0
    ensures r == Err(AmountOverflow) <==> denominator != 0 && x * y / denominator >= TWO_128
    ensures r.Ok? ==> r.value == x * y / denominator
    ensures r.Err? ==> r.error in {DivisionByZero, AmountOverflow}
  {
    if denominator == 0 then
      Err(DivisionByZero)
    else
      var product := WrappingMul512(x, y);
      assert product == x * y by {
        ProductNeverWraps512(x, y);
      }
      var quotient := product / denominator;
      TryU128(quotient, AmountOverflow)
  }

  /** `mul_div_round_up`: `MulDiv`, plus one whenever `x` (the first factor, not the
      product) is not a multiple of `denominator`. The result is never below the exact
      quotient, but it exceeds the ceiling when the product is a multiple of `denominator`
      and `x` is not. */
  function MulDivRoundUp(x: U256, y: U256, denominator: U256): (r: Result<U128>)
    ensures MulDiv(x, y, denominator).Err? ==> r == MulDiv(x, y, denominator)
    ensures r.Ok? ==> MulDiv(x, y, denominator).Ok?
    ensures r.Ok? ==> MulDiv(x, y, denominator).value <= r.value <= MulDiv(x, y, denominator).value + 1
    ensures r.Ok? ==> (r.value == x * y / denominator <==> x % denominator == 0)
    ensures r.Ok? ==> r.value * denominator >= x * y
    ensures r == Err(AmountOverflow) <==>
              denominator != 0 &&
              (x * y / denominator >= TWO_128 ||
               (x * y / denominator == U128_MAX && x % denominator != 0))
    ensures r.Err? ==> r.error in {DivisionByZero, AmountOverflow}
  {
    var result :- MulDiv(x, y, denominator);
    if x % denominator == 0 then
      assert result * denominator == x * y by {
        MultipleOfFirstFactor(x, y, denominator);
      }
      Ok(result)
    else
      assert (result + 1) * denominator > x * y by {
        FloorDiv(x * y, denominator, result);
      }
      if result + 1 < TWO_128 then Ok(result + 1) else Err(AmountOverflow)
  }

  /** A product whose first factor is a multiple of `d` divides exactly by `d`. */
  lemma MultipleOfFirstFactor(x: nat, y: nat, d: nat)
    requires d > 0 && x % d == 0
    ensures (x * y / d) * d == x * y
  {
    var k := x / d;
    assert x == k * d;
    assert x * y == (k * y) * d;
    FloorDiv(x * y, d, k * y);
  }

  /** The rounding test looks at `x` alone: 3 * 2 / 2 is exactly 3, yet the rounded-up
      result is 4 because 3 is odd. */
  lemma RoundUpTestsFirstFactorOnly()
    ensures 3 * 2 % 2 == 0 && MulDiv(3, 2, 2) == Ok(3)
    ensures MulDivRoundUp(3, 2, 2) == Ok(4)
  {
  }
}
