/// The state of a lending reserve as a value, and the pure computations on
/// it: total supply, utilization, the borrow-rate curve, the collateral
/// exchange rate, market values and interest compounding.
module Reserves {
  import opened FixedPoint
  import opened ReserveConfigs

  /// Slots in a year at the cluster's default tick rate (declared outside
  /// the reserve module).
  const SLOTS_PER_YEAR: nat := 63_072_000
  /// Collateral tokens minted per liquidity token while a reserve is empty.
  const INITIAL_COLLATERAL_RATE: Rate := 1_000_000_000_000_000_000
  /// The account layout version this program writes.
  const PROGRAM_VERSION: u8 := 1

  datatype LastUpdate = LastUpdate(slot: u64, stale: bool)

  /// `LastUpdate::slots_elapsed`: slots since the last update; a slot in
  /// the past is an overflow.
  function SlotsElapsed(u: LastUpdate, slot: u64): (r: Result<u64>)
    ensures r.Ok? <==> u.slot <= slot
    ensures r.Ok? ==> u.slot + r.value == slot
  {
    if u.slot <= slot then Ok(slot - u.slot) else Err(MathOverflow)
  }

  /// The outflow rate limiter, carried as its 56-byte packed image.
  type RateLimiterImage = s: seq<Byte> | |s| == 56 witness seq(56, _ => 0)
  datatype RateLimiter = RateLimiter(image: RateLimiterImage)

  datatype LiquidityState = LiquidityState(
    mint_pubkey: Pubkey,
    mint_decimals: u8,
    supply_pubkey: Pubkey,
    pyth_oracle_pubkey: Pubkey,
    switchboard_oracle_pubkey: Pubkey,
    available_amount: u64,
    borrowed_amount_wads: Decimal,
    cumulative_borrow_rate_wads: Decimal,
    accumulated_protocol_fees_wads: Decimal,
    market_price: Decimal,
    smoothed_market_price: Decimal)

  datatype CollateralState = CollateralState(
    mint_pubkey: Pubkey,
    mint_total_supply: u64,
    supply_pubkey: Pubkey)

  datatype ReserveState = ReserveState(
    version: u8,
    last_update: LastUpdate,
    lending_market: Pubkey,
    liquidity: LiquidityState,
    collateral: CollateralState,
    config: ReserveConfig,
    rate_limiter: RateLimiter)

  // ----- liquidity -------------------------------------------------------

  /// `total_supply`: available plus borrowed liquidity, less the protocol's
  /// accumulated fees; fails if the fees exceed the rest.
  function TotalSupply(l: LiquidityState): (r: Result<Decimal>)
    ensures r.Ok? <==>
              FromU64(l.available_amount) + l.borrowed_amount_wads <= U192_MAX
              && l.accumulated_protocol_fees_wads <= FromU64(l.available_amount) + l.borrowed_amount_wads
    ensures r.Ok? ==>
              r.value + l.accumulated_protocol_fees_wads == FromU64(l.available_amount) + l.borrowed_amount_wads
  {
    var gross :- DAdd(FromU64(l.available_amount), l.borrowed_amount_wads);
    DSub(gross, l.accumulated_protocol_fees_wads)
  }

  /// `utilization_rate`: the borrowed share of borrowed plus available
  /// liquidity, rounded down; zero for an empty reserve or no borrows.
  function UtilizationRate(l: LiquidityState): (r: Result<Rate>)
    ensures r.Ok? ==> r.value <= WAD
    // the borrowed share, rounded down: both halves of the floor
    ensures r.Ok? ==>
              r.value * (l.borrowed_amount_wads + FromU64(l.available_amount)) <= l.borrowed_amount_wads * WAD
    ensures r.Ok? && TotalSupply(l).Ok? && TotalSupply(l).value > 0 && l.borrowed_amount_wads > 0 ==>
              l.borrowed_amount_wads * WAD < (r.value + 1) * (l.borrowed_amount_wads + FromU64(l.available_amount))
    // the division fails only when the scaled debt overflows
    ensures TotalSupply(l).Ok? ==>
              (r.Ok? <==> TotalSupply(l).value == 0 || l.borrowed_amount_wads == 0
                          || l.borrowed_amount_wads * WAD <= U192_MAX)
    ensures TotalSupply(l).Ok? && (TotalSupply(l).value == 0 || l.borrowed_amount_wads == 0) ==>
              r == Ok(0)
    ensures TotalSupply(l).Err? ==> r == Err(TotalSupply(l).error)
    ensures r.Err? ==> r.error == MathOverflow
    ensures r.Ok? && r.value > 0 ==> l.borrowed_amount_wads > 0
    ensures r.Ok? && l.available_amount == 0 && l.borrowed_amount_wads > 0 && TotalSupply(l).value > 0 ==>
              r.value == WAD
  {
    var total :- TotalSupply(l);
    if total == 0 || l.borrowed_amount_wads == 0 then
      Ok(0)
    else
      // the same sum as in the total supply, so it cannot overflow here
      var denominator := DAdd(l.borrowed_amount_wads, FromU64(l.available_amount)).value;
      var share :- DDiv(l.borrowed_amount_wads, denominator);
      RatioFacts(l.borrowed_amount_wads, denominator, share);
      Ok(ToRate(share).value)
  }

  // ----- borrow rate curve ------------------------------------------------

  /// `w` is the ratio `part / whole` as a scaled rate, rounded down; it is
  /// at most one, zero for a zero part and exactly one for the whole.
  lemma RatioFacts(part: nat, whole: nat, w: nat)
    requires 0 < whole && part <= whole
    requires w * whole <= part * WAD < (w + 1) * whole
    ensures w <= WAD
    ensures part == 0 ==> w == 0
    ensures part == whole ==> w == WAD
  {
    MulLe(part, whole, WAD);
    if w > WAD {
      MulLe(WAD + 1, w, whole);
    }
    if part == whole {
      MulLtCancel(WAD, w + 1, whole);
    }
    if part == 0 && w > 0 {
      MulLe(1, w, whole);
    }
  }

  /// `s` is `w * range` rounded down for a weight `w` of at most one: it
  /// lies within the range and reaches both of its ends.
  lemma ScaleFacts(w: nat, range: nat, s: nat)
    requires w <= WAD
    requires s * WAD <= w * range < (s + 1) * WAD
    ensures s <= range
    ensures w == 0 ==> s == 0
    ensures w == WAD ==> s == range
  {
    MulLe(w, WAD, range);
    MulLtCancel(s, range + 1, WAD);
    if w == WAD {
      MulLtCancel(range, s + 1, WAD);
    }
    if w == 0 && s > 0 {
      MulLe(1, s, WAD);
    }
  }

  /// Quotients rounded down are monotone in the dividend.
  lemma QuotientMonotone(x1: nat, x2: nat, d: nat, q1: nat, q2: nat)
    requires d > 0 && x1 <= x2
    requires q1 * d <= x1 && x2 < (q2 + 1) * d
    ensures q1 <= q2
  {
    MulLtCancel(q1, q2 + 1, d);
  }

  /// The point a fraction `part / whole` of the way from `lo` to
  /// `lo + range`, in the program's 128-bit rate arithmetic (divide, then
  /// multiply, then add): the first two segments of the borrow-rate curve.
  /// None of the steps can overflow for percentages of at most 255.
  function Interpolate(part: Rate, whole: Rate, lo: Rate, range: Rate): (r: Rate)
    requires 0 < whole && part <= whole <= 255 * PERCENT_SCALER
    requires lo <= 255 * PERCENT_SCALER && range <= 255 * PERCENT_SCALER
    ensures lo <= r <= lo + range
    ensures part == 0 ==> r == lo
    ensures part == whole ==> r == lo + range
    // linear in the fraction: `lo + range * part / whole`, short of it by
    // less than the two roundings
    ensures (r - lo) * WAD * whole <= part * WAD * range
    ensures part * WAD * range < ((r - lo + 1) * WAD + range) * whole
  {
    MulLe(part, 255 * PERCENT_SCALER, WAD);
    var weight := RDiv(part, whole).value;
    RatioFacts(part, whole, weight);
    MulLe(weight, WAD, range);
    var scaled := RMul(weight, range).value;
    ScaleFacts(weight, range, scaled);
    TwoStepScale(part, whole, range, weight, scaled);
    RAdd(scaled, lo).value
  }

  /// Interpolation is monotone in the fraction.
  lemma InterpolateMonotone(p1: Rate, p2: Rate, whole: Rate, lo: Rate, range: Rate)
    requires 0 < whole && p1 <= p2 <= whole <= 255 * PERCENT_SCALER
    requires lo <= 255 * PERCENT_SCALER && range <= 255 * PERCENT_SCALER
    ensures Interpolate(p1, whole, lo, range) <= Interpolate(p2, whole, lo, range)
  {
    MulLe(p2, 255 * PERCENT_SCALER, WAD);
    MulLe(p1, p2, WAD);
    var w1 := RDiv(p1, whole).value;
    var w2 := RDiv(p2, whole).value;
    QuotientMonotone(p1 * WAD, p2 * WAD, whole, w1, w2);
    RatioFacts(p2, whole, w2);
    MulLe(w1, w2, range);
    MulLe(w2, WAD, range);
    var s1 := RMul(w1, range).value;
    var s2 := RMul(w2, range).value;
    QuotientMonotone(w1 * range, w2 * range, WAD, s1, s2);
  }

  /// The segment above the maximum utilization, from the maximum rate to
  /// the super-maximum rate at full utilization. The weight is a 128-bit
  /// rate but the product is taken in 192 bits, as the program does, so
  /// the only failure is a super-maximum rate below the maximum rate.
  function AboveMaxRate(c: ReserveConfig, u: Rate): (r: Result<Rate>)
    requires FromPercent(c.max_utilization_rate) < u <= WAD
    ensures r.Ok? <==> c.max_borrow_rate <= c.super_max_borrow_rate
    ensures r.Err? ==> r.error == MathOverflow
    ensures r.Ok? ==>
              FromPercent(c.max_borrow_rate) <= r.value <= FromPercentU64(c.super_max_borrow_rate)
    ensures r.Ok? && u == WAD ==> r.value == FromPercentU64(c.super_max_borrow_rate)
  {
    var maxUtilization := FromPercent(c.max_utilization_rate);
    var above := RSub(u, maxUtilization).value;
    var headroom := FromPercent(100 - c.max_utilization_rate);
    MulLe(above, WAD, WAD);
    var weight := RDiv(above, headroom).value;
    RatioFacts(above, headroom, weight);
    var maxRate := FromPercent(c.max_borrow_rate);
    var range :- RSub(FromPercentU64(c.super_max_borrow_rate), maxRate);
    MulLe(weight, WAD, range);
    var scaled := DMul(weight, range).value;
    ScaleFacts(weight, range, scaled);
    var sum := DAdd(scaled, maxRate).value;
    Ok(ToRate(sum).value)
  }

  /// The steep segment is monotone in the utilization.
  lemma AboveMaxRateMonotone(c: ReserveConfig, u1: Rate, u2: Rate)
    requires FromPercent(c.max_utilization_rate) < u1 <= u2 <= WAD
    requires c.max_borrow_rate <= c.super_max_borrow_rate
    ensures AboveMaxRate(c, u1).value <= AboveMaxRate(c, u2).value
  {
    var maxUtilization := FromPercent(c.max_utilization_rate);
    var headroom := FromPercent(100 - c.max_utilization_rate);
    var range := FromPercentU64(c.super_max_borrow_rate) - FromPercent(c.max_borrow_rate);
    AboveMaxRateValue(c, u1);
    AboveMaxRateValue(c, u2);
    WeightedMonotone(u1 - maxUtilization, u2 - maxUtilization, headroom, range);
  }

  /// The steep segment is the maximum rate plus the weighted range.
  lemma AboveMaxRateValue(c: ReserveConfig, u: Rate)
    requires FromPercent(c.max_utilization_rate) < u <= WAD
    requires c.max_borrow_rate <= c.super_max_borrow_rate
    ensures u - FromPercent(c.max_utilization_rate) <= FromPercent(100 - c.max_utilization_rate) <= WAD
    ensures FromPercent(c.max_borrow_rate) <= FromPercentU64(c.super_max_borrow_rate) <= U128_MAX
    ensures var range := FromPercentU64(c.super_max_borrow_rate) - FromPercent(c.max_borrow_rate);
            var weight := RDiv(u - FromPercent(c.max_utilization_rate), FromPercent(100 - c.max_utilization_rate));
            && weight.Ok? && DMul(weight.value, range).Ok?
            && AboveMaxRate(c, u).value == DMul(weight.value, range).value + FromPercent(c.max_borrow_rate)
  {
    var above := u - FromPercent(c.max_utilization_rate);
    var headroom := FromPercent(100 - c.max_utilization_rate);
    MulLe(above, WAD, WAD);
    var weight := RDiv(above, headroom).value;
    RatioFacts(above, headroom, weight);
    var range := FromPercentU64(c.super_max_borrow_rate) - FromPercent(c.max_borrow_rate);
    MulLe(weight, WAD, range);
    var scaled := DMul(weight, range).value;
    ScaleFacts(weight, range, scaled);
  }

  /// A range scaled by a weight `part / whole` in 192 bits grows with the
  /// part.
  lemma WeightedMonotone(a1: Rate, a2: Rate, whole: Rate, range: Rate)
    requires 0 < whole && a1 <= a2 <= whole <= WAD
    ensures RDiv(a1, whole).Ok? && RDiv(a2, whole).Ok?
    ensures DMul(RDiv(a1, whole).value, range).Ok? && DMul(RDiv(a2, whole).value, range).Ok?
    ensures DMul(RDiv(a1, whole).value, range).value <= DMul(RDiv(a2, whole).value, range).value
  {
    MulLe(a2, WAD, WAD);
    MulLe(a1, a2, WAD);
    var w1 := RDiv(a1, whole).value;
    var w2 := RDiv(a2, whole).value;
    QuotientMonotone(a1 * WAD, a2 * WAD, whole, w1, w2);
    RatioFacts(a2, whole, w2);
    MulLe(w1, w2, range);
    MulLe(w2, WAD, range);
    var s1 := DMul(w1, range).value;
    var s2 := DMul(w2, range).value;
    QuotientMonotone(w1 * range, w2 * range, WAD, s1, s2);
  }

  /// The configured rates are in non-decreasing order along the curve.
  predicate RatesOrdered(c: ReserveConfig)
  {
    c.min_borrow_rate <= c.optimal_borrow_rate <= c.max_borrow_rate <= c.super_max_borrow_rate
  }

  /// The borrow-rate curve at utilization `u`: piecewise linear through
  /// (0, min), (optimal utilization, optimal rate), (maximum utilization,
  /// maximum rate) and (1, super-maximum rate). A zero optimal utilization
  /// gives the minimum rate at zero utilization.
  function BorrowRateCurve(c: ReserveConfig, u: Rate): (r: Result<Rate>)
    requires u <= WAD
    ensures r.Err? ==> r.error == MathOverflow
    ensures RatesOrdered(c) ==> r.Ok?
    // each segment fails only when its own two rates are out of order
    ensures u <= FromPercent(c.optimal_utilization_rate) ==>
              (r.Ok? <==> c.optimal_utilization_rate == 0 || c.min_borrow_rate <= c.optimal_borrow_rate)
    ensures FromPercent(c.optimal_utilization_rate) < u <= FromPercent(c.max_utilization_rate) ==>
              (r.Ok? <==> c.optimal_borrow_rate <= c.max_borrow_rate)
    ensures FromPercent(c.max_utilization_rate) < u && FromPercent(c.optimal_utilization_rate) < u ==>
              (r.Ok? <==> c.max_borrow_rate <= c.super_max_borrow_rate)
    // each segment stays between the rates at its ends
    ensures r.Ok? && u <= FromPercent(c.optimal_utilization_rate) ==>
              FromPercent(c.min_borrow_rate) <= r.value
              && (c.optimal_utilization_rate > 0 ==> r.value <= FromPercent(c.optimal_borrow_rate))
    ensures r.Ok? && FromPercent(c.optimal_utilization_rate) < u <= FromPercent(c.max_utilization_rate) ==>
              FromPercent(c.optimal_borrow_rate) <= r.value <= FromPercent(c.max_borrow_rate)
    ensures r.Ok? && FromPercent(c.max_utilization_rate) < u && FromPercent(c.optimal_utilization_rate) < u ==>
              FromPercent(c.max_borrow_rate) <= r.value <= FromPercentU64(c.super_max_borrow_rate)
    // and passes through the configured points
    ensures r.Ok? && u == 0 ==> r.value == FromPercent(c.min_borrow_rate)
    ensures r.Ok? && 0 < u == FromPercent(c.optimal_utilization_rate) ==>
              r.value == FromPercent(c.optimal_borrow_rate)
    ensures r.Ok? && FromPercent(c.optimal_utilization_rate) < u == FromPercent(c.max_utilization_rate) ==>
              r.value == FromPercent(c.max_borrow_rate)
    ensures r.Ok? && FromPercent(c.max_utilization_rate) < u == WAD && FromPercent(c.optimal_utilization_rate) < u ==>
              r.value == FromPercentU64(c.super_max_borrow_rate)
    // the value on each segment: linear from the rate at its start to the
    // rate at its end
    ensures 0 < u <= FromPercent(c.optimal_utilization_rate) && c.min_borrow_rate <= c.optimal_borrow_rate ==>
              r == Ok(Interpolate(u, FromPercent(c.optimal_utilization_rate), FromPercent(c.min_borrow_rate),
                                  FromPercent(c.optimal_borrow_rate - c.min_borrow_rate)))
    ensures FromPercent(c.optimal_utilization_rate) < u <= FromPercent(c.max_utilization_rate)
            && c.optimal_borrow_rate <= c.max_borrow_rate ==>
              r == Ok(Interpolate(u - FromPercent(c.optimal_utilization_rate),
                                  FromPercent(c.max_utilization_rate) - FromPercent(c.optimal_utilization_rate),
                                  FromPercent(c.optimal_borrow_rate),
                                  FromPercent(c.max_borrow_rate) - FromPercent(c.optimal_borrow_rate)))
    ensures FromPercent(c.max_utilization_rate) < u && FromPercent(c.optimal_utilization_rate) < u ==>
              r == AboveMaxRate(c, u)
  {
    var optimalUtilization := FromPercent(c.optimal_utilization_rate);
    var maxUtilization := FromPercent(c.max_utilization_rate);
    if u <= optimalUtilization then
      var minRate := FromPercent(c.min_borrow_rate);
      if optimalUtilization == 0 then
        Ok(minRate)
      else if c.min_borrow_rate <= c.optimal_borrow_rate then
        Ok(Interpolate(u, optimalUtilization, minRate,
                       FromPercent(c.optimal_borrow_rate - c.min_borrow_rate)))
      else
        Err(MathOverflow)
    else if u <= maxUtilization then
      var optimalRate := FromPercent(c.optimal_borrow_rate);
      var maxRate := FromPercent(c.max_borrow_rate);
      if optimalRate <= maxRate then
        Ok(Interpolate(u - optimalUtilization, maxUtilization - optimalUtilization,
                       optimalRate, maxRate - optimalRate))
      else
        Err(MathOverflow)
    else
      AboveMaxRate(c, u)
  }

  /// With ordered rates the curve never decreases: more utilization never
  /// means a lower borrow rate.
  lemma BorrowRateCurveMonotone(c: ReserveConfig, u1: Rate, u2: Rate)
    requires u1 <= u2 <= WAD
    requires RatesOrdered(c)
    ensures BorrowRateCurve(c, u1).value <= BorrowRateCurve(c, u2).value
  {
    var optimalUtilization := FromPercent(c.optimal_utilization_rate);
    var maxUtilization := FromPercent(c.max_utilization_rate);
    if u2 <= optimalUtilization {
      LowSegmentMonotone(c, u1, u2);
    } else if optimalUtilization < u1 && u2 <= maxUtilization {
      MiddleSegmentMonotone(c, u1, u2);
    } else if maxUtilization < u1 && optimalUtilization < u1 {
      AboveMaxRateMonotone(c, u1, u2);
    } else {
      AcrossSegmentsMonotone(c, u1, u2);
    }
  }

  lemma LowSegmentMonotone(c: ReserveConfig, u1: Rate, u2: Rate)
    requires u1 <= u2 <= FromPercent(c.optimal_utilization_rate) && u2 <= WAD
    requires RatesOrdered(c)
    ensures BorrowRateCurve(c, u1).value <= BorrowRateCurve(c, u2).value
  {
    var optimalUtilization := FromPercent(c.optimal_utilization_rate);
    if optimalUtilization > 0 {
      InterpolateMonotone(u1, u2, optimalUtilization, FromPercent(c.min_borrow_rate),
                          FromPercent(c.optimal_borrow_rate - c.min_borrow_rate));
    }
  }

  lemma MiddleSegmentMonotone(c: ReserveConfig, u1: Rate, u2: Rate)
    requires FromPercent(c.optimal_utilization_rate) < u1 <= u2 <= FromPercent(c.max_utilization_rate)
    requires u2 <= WAD && RatesOrdered(c)
    ensures BorrowRateCurve(c, u1).value <= BorrowRateCurve(c, u2).value
  {
    var optimalUtilization := FromPercent(c.optimal_utilization_rate);
    var whole := FromPercent(c.max_utilization_rate) - optimalUtilization;
    var lo := FromPercent(c.optimal_borrow_rate);
    var range := FromPercent(c.max_borrow_rate) - lo;
    assert BorrowRateCurve(c, u1) == Ok(Interpolate(u1 - optimalUtilization, whole, lo, range));
    assert BorrowRateCurve(c, u2) == Ok(Interpolate(u2 - optimalUtilization, whole, lo, range));
    InterpolateMonotone(u1 - optimalUtilization, u2 - optimalUtilization, whole, lo, range);
  }

  /// Points on different segments: the rate at the end of the lower one is
  /// at most the rate at the start of the higher one.
  lemma AcrossSegmentsMonotone(c: ReserveConfig, u1: Rate, u2: Rate)
    requires u1 <= u2 <= WAD
    requires RatesOrdered(c)
    requires FromPercent(c.optimal_utilization_rate) < u2
    requires !(FromPercent(c.optimal_utilization_rate) < u1 && u2 <= FromPercent(c.max_utilization_rate))
    requires !(FromPercent(c.max_utilization_rate) < u1 && FromPercent(c.optimal_utilization_rate) < u1)
    ensures BorrowRateCurve(c, u1).value <= BorrowRateCurve(c, u2).value
  {
  }

  /// `current_borrow_rate`: the curve at the reserve's utilization.
  function CurrentBorrowRate(r: ReserveState): (rate: Result<Rate>)
    ensures UtilizationRate(r.liquidity).Err? ==> rate == Err(UtilizationRate(r.liquidity).error)
    ensures UtilizationRate(r.liquidity).Ok? ==>
              rate == BorrowRateCurve(r.config, UtilizationRate(r.liquidity).value)
    ensures rate.Err? ==> rate.error == MathOverflow
    ensures UtilizationRate(r.liquidity).Ok? && RatesOrdered(r.config) ==>
              rate.Ok? && FromPercent(r.config.min_borrow_rate) <= rate.value
                          <= FromPercentU64(r.config.super_max_borrow_rate)
  {
    var utilization :- UtilizationRate(r.liquidity);
    BorrowRateCurve(r.config, utilization)
  }

  // ----- collateral exchange rate -----------------------------------------

  /// `ReserveCollateral::exchange_rate`: collateral tokens per liquidity
  /// token, the initial rate while either side is empty.
  function ExchangeRate(c: CollateralState, totalLiquidity: Decimal): (r: Result<Rate>)
    ensures c.mint_total_supply == 0 || totalLiquidity == 0 ==> r == Ok(INITIAL_COLLATERAL_RATE)
    // otherwise the ratio, which fails only when it does not fit in 128 bits
    ensures c.mint_total_supply > 0 && totalLiquidity > 0 ==>
              (r.Ok? <==> FromU64(c.mint_total_supply) * WAD < (U128_MAX + 1) * totalLiquidity)
    ensures r.Ok? && c.mint_total_supply > 0 && totalLiquidity > 0 ==>
              r.value * totalLiquidity <= FromU64(c.mint_total_supply) * WAD
              < (r.value + 1) * totalLiquidity
    ensures r.Err? ==> r.error == MathOverflow
  {
    if c.mint_total_supply == 0 || totalLiquidity == 0 then
      Ok(INITIAL_COLLATERAL_RATE)
    else
      // a 64-bit supply scaled twice fits in 192 bits
      MulLe(c.mint_total_supply, U64_MAX, WAD);
      MulLe(FromU64(c.mint_total_supply), U64_MAX * WAD, WAD);
      var ratio := DDiv(FromU64(c.mint_total_supply), totalLiquidity).value;
      QuotientFits(FromU64(c.mint_total_supply) * WAD, totalLiquidity, ratio, U128_MAX);
      ToRate(ratio)
  }

  /// A quotient rounded down is at most `bound` exactly when the dividend
  /// is below `(bound + 1)` divisors.
  lemma QuotientFits(x: nat, d: nat, q: nat, bound: nat)
    requires d > 0
    requires q * d <= x < (q + 1) * d
    ensures q <= bound <==> x < (bound + 1) * d
  {
    if q <= bound {
      MulLe(q + 1, bound + 1, d);
    } else {
      MulLe(bound + 1, q, d);
    }
  }

  /// `collateral_exchange_rate`: the exchange rate at the reserve's total supply.
  function CollateralExchangeRate(r: ReserveState): (rate: Result<Rate>)
    ensures TotalSupply(r.liquidity).Err? ==> rate == Err(TotalSupply(r.liquidity).error)
    ensures TotalSupply(r.liquidity).Ok? ==>
              rate == ExchangeRate(r.collateral, TotalSupply(r.liquidity).value)
  {
    var total :- TotalSupply(r.liquidity);
    ExchangeRate(r.collateral, total)
  }

  /// `decimal_collateral_to_liquidity`: collateral divided by the rate.
  function DecimalCollateralToLiquidity(rate: Rate, collateral: Decimal): (r: Result<Decimal>)
    ensures r.Ok? <==> rate != 0 && collateral * WAD <= U192_MAX
    ensures r.Ok? ==> r.value * rate <= collateral * WAD < (r.value + 1) * rate
  {
    DDiv(collateral, rate)
  }

  /// `collateral_to_liquidity`: the same, floored to whole tokens.
  function CollateralToLiquidity(rate: Rate, collateral: u64): (r: Result<u64>)
    ensures r.Ok? <==> rate > 0 && collateral * WAD < (U64_MAX + 1) * rate
    ensures r.Ok? ==> r.value * rate <= collateral * WAD < (r.value + 1) * rate
    ensures r.Err? ==> r.error == MathOverflow
  {
    if rate == 0 then Err(MathOverflow)
    else
      // a 64-bit amount scaled twice fits in 192 bits
      MulLe(collateral, U64_MAX, WAD * WAD);
      var liquidity := DecimalCollateralToLiquidity(rate, FromU64(collateral)).value;
      TwoStepQuotient(collateral * WAD, rate, liquidity, Floor(liquidity));
      QuotientFits(collateral * WAD, rate, liquidity / WAD, U64_MAX);
      Floor(liquidity)
  }

  /// Dividing `x * WAD` by `d` and then flooring to whole units is one
  /// division of `x` by `d`, rounded down.
  lemma TwoStepQuotient(x: nat, d: nat, l: nat, whole: Result<u64>)
    requires d > 0
    requires l * d <= x * WAD < (l + 1) * d
    requires whole.Ok? <==> l / WAD <= U64_MAX
    requires whole.Ok? ==> whole.value * WAD <= l < (whole.value + 1) * WAD
    ensures (l / WAD) * d <= x < (l / WAD + 1) * d
    ensures whole.Ok? ==> whole.value == l / WAD
  {
    var w := l / WAD;
    DivBelow(l, WAD);
    MulLe(w * WAD, l, d);
    assert w * d * WAD <= x * WAD;
    MulLtCancel(w * d, x + 1, WAD);
    MulLe(l + 1, (w + 1) * WAD, d);
    assert x * WAD < (w + 1) * d * WAD;
    MulLtCancel(x, (w + 1) * d, WAD);
    if whole.Ok? {
      MulLtCancel(whole.value, w + 1, WAD);
      MulLtCancel(w, whole.value + 1, WAD);
    }
  }

  /// `decimal_liquidity_to_collateral`: liquidity times the rate.
  function DecimalLiquidityToCollateral(rate: Rate, liquidity: Decimal): (r: Result<Decimal>)
    ensures r.Ok? <==> liquidity * rate <= U192_MAX
    ensures r.Ok? ==> r.value * WAD <= liquidity * rate < (r.value + 1) * WAD
  {
    DMul(liquidity, rate)
  }

  /// `liquidity_to_collateral`: the same, floored to whole tokens.
  function LiquidityToCollateral(rate: Rate, liquidity: u64): (r: Result<u64>)
    ensures r.Ok? <==> liquidity * rate < (U64_MAX + 1) * WAD
    ensures r.Ok? ==> r.value * WAD <= liquidity * rate < (r.value + 1) * WAD
    ensures r.Err? ==> r.error == MathOverflow
  {
    // the scaled product is exact: the amount is a whole number of tokens
    ExactScaledProduct(liquidity, rate);
    if liquidity * rate >= (U64_MAX + 1) * WAD then
      assert liquidity * rate / WAD > U64_MAX by {
        DivBelow(liquidity * rate, WAD);
        MulLtCancel(U64_MAX, liquidity * rate / WAD + 1, WAD);
      }
      var collateral :- DecimalLiquidityToCollateral(rate, FromU64(liquidity));
      Floor(collateral)
    else
      MulLe(liquidity * rate, (U64_MAX + 1) * WAD, WAD);
      var collateral := DecimalLiquidityToCollateral(rate, FromU64(liquidity)).value;
      DivBelow(liquidity * rate, WAD);
      MulLtCancel(liquidity * rate / WAD, U64_MAX + 1, WAD);
      Floor(collateral)
  }

  /// Multiplying a whole number of tokens by a rate loses nothing to
  /// rounding.
  lemma ExactScaledProduct(liquidity: u64, rate: Rate)
    ensures liquidity * WAD * rate == (liquidity * rate) * WAD
    ensures liquidity * WAD * rate <= U192_MAX ==> DMul(liquidity * WAD, rate) == Ok(liquidity * rate)
  {
  }

  /// Depositing liquidity and redeeming the collateral it mints, at one
  /// exchange rate, never returns more liquidity than was deposited.
  lemma DepositThenRedeemNoGain(rate: Rate, liquidity: u64)
    requires LiquidityToCollateral(rate, liquidity).Ok?
    requires CollateralToLiquidity(rate, LiquidityToCollateral(rate, liquidity).value).Ok?
    ensures CollateralToLiquidity(rate, LiquidityToCollateral(rate, liquidity).value).value <= liquidity
  {
    var c := LiquidityToCollateral(rate, liquidity).value;
    var back := CollateralToLiquidity(rate, c).value;
    assert back * rate <= liquidity * rate;
    MulLtCancel(back, liquidity + 1, rate);
  }

  /// Redeeming collateral and depositing the liquidity it returns, at one
  /// exchange rate, never mints more collateral than was redeemed.
  lemma RedeemThenDepositNoGain(rate: Rate, collateral: u64)
    requires CollateralToLiquidity(rate, collateral).Ok?
    requires LiquidityToCollateral(rate, CollateralToLiquidity(rate, collateral).value).Ok?
    ensures LiquidityToCollateral(rate, CollateralToLiquidity(rate, collateral).value).value <= collateral
  {
    var l := CollateralToLiquidity(rate, collateral).value;
    var back := LiquidityToCollateral(rate, l).value;
    assert back * WAD <= collateral * WAD;
    MulLtCancel(back, collateral + 1, WAD);
  }

  // ----- market value ----------------------------------------------------

  function Pow10(n: nat): (p: nat)
    ensures p >= 1
  {
    if n == 0 then 1 else 10 * Pow10(n - 1)
  }

  /// `10u128.checked_pow(mint_decimals)`: the token's base-unit factor,
  /// which must fit in 128 bits.
  function MintFactor(l: LiquidityState): (r: Result<nat>)
    ensures r.Ok? ==> 1 <= r.value <= U128_MAX && r.value == Pow10(l.mint_decimals)
    ensures r.Ok? <==> Pow10(l.mint_decimals) <= U128_MAX
  {
    if Pow10(l.mint_decimals) <= U128_MAX then Ok(Pow10(l.mint_decimals)) else Err(MathOverflow)
  }

  function FactorAsDecimal(f: nat): (d: Decimal)
    requires 1 <= f <= U128_MAX
    ensures d == f * WAD && d >= WAD
  {
    MulLe(f, U128_MAX, WAD);
    f * WAD
  }

  /// The quote value of `amount` tokens at `price`: the product of price
  /// and amount, divided by the token's base-unit factor. It never
  /// overstates the exact value.
  function ValueAtPrice(l: LiquidityState, price: Decimal, amount: Decimal): (r: Result<Decimal>)
    ensures r.Ok? <==> price * amount <= U192_MAX && MintFactor(l).Ok?
    ensures r.Err? ==> r.error == MathOverflow
    ensures r.Ok? ==> r.value * (MintFactor(l).value * WAD) <= price * amount
                      < (r.value + 1) * (MintFactor(l).value * WAD)
  {
    var product :- DMul(price, amount);
    var factor :- MintFactor(l);
    // the product is at most U192_MAX / WAD, so scaling it back up fits
    var v := DDiv(product, FactorAsDecimal(factor)).value;
    TwoRoundings(price * amount, product, factor, v);
    Ok(v)
  }

  /// Rounding `x / WAD` down to `p`, then `p / f` down to `v`, is rounding
  /// `x / (f * WAD)` down once.
  lemma TwoRoundings(x: nat, p: nat, f: nat, v: nat)
    requires f >= 1
    requires p * WAD <= x < (p + 1) * WAD
    requires v * (f * WAD) <= p * WAD < (v + 1) * (f * WAD)
    ensures v * (f * WAD) <= x < (v + 1) * (f * WAD)
  {
    assert v * f * WAD <= p * WAD;
    MulLtCancel(v * f, p + 1, WAD);
    assert p * WAD < (v + 1) * f * WAD;
    MulLtCancel(p, (v + 1) * f, WAD);
    MulLe(p + 1, (v + 1) * f, WAD);
  }

  /// The value at a lower price is defined whenever the value at a higher
  /// one is, and is no larger.
  lemma ValueAtPriceMonotone(l: LiquidityState, low: Decimal, high: Decimal, amount: Decimal)
    requires low <= high
    requires ValueAtPrice(l, high, amount).Ok?
    ensures ValueAtPrice(l, low, amount).Ok?
    ensures ValueAtPrice(l, low, amount).value <= ValueAtPrice(l, high, amount).value
  {
    MulLe(low, high, amount);
    var pl := DMul(low, amount).value;
    var ph := DMul(high, amount).value;
    QuotientMonotone(low * amount, high * amount, WAD, pl, ph);
    MulLe(pl, ph, WAD);
    var f := FactorAsDecimal(MintFactor(l).value);
    QuotientMonotone(pl * WAD, ph * WAD, f, DDiv(pl, f).value, DDiv(ph, f).value);
  }

  /// `market_value`: the amount valued at the market price.
  function MarketValue(r: ReserveState, amount: Decimal): (v: Result<Decimal>)
    ensures v.Ok? <==> r.liquidity.market_price * amount <= U192_MAX && MintFactor(r.liquidity).Ok?
    ensures v.Ok? ==> v.value * (MintFactor(r.liquidity).value * WAD) <= r.liquidity.market_price * amount
                      < (v.value + 1) * (MintFactor(r.liquidity).value * WAD)
  {
    ValueAtPrice(r.liquidity, r.liquidity.market_price, amount)
  }

  /// `market_value_upper_bound`: valued at the larger of the market and
  /// smoothed prices, so never below the market value.
  function MarketValueUpperBound(r: ReserveState, amount: Decimal): (v: Result<Decimal>)
    ensures var top := Max(r.liquidity.market_price, r.liquidity.smoothed_market_price);
            && (v.Ok? <==> top * amount <= U192_MAX && MintFactor(r.liquidity).Ok?)
            && (v.Ok? ==> v.value * (MintFactor(r.liquidity).value * WAD) <= top * amount
                          < (v.value + 1) * (MintFactor(r.liquidity).value * WAD))
    ensures v.Err? ==> v.error == MathOverflow
    ensures v.Ok? ==> MarketValue(r, amount).Ok? && MarketValue(r, amount).value <= v.value
  {
    var price := Max(r.liquidity.market_price, r.liquidity.smoothed_market_price);
    var v :- ValueAtPrice(r.liquidity, price, amount);
    ValueAtPriceMonotone(r.liquidity, r.liquidity.market_price, price, amount);
    Ok(v)
  }

  /// `market_value_lower_bound`: valued at the smaller of the two prices,
  /// so defined whenever the market value is, and never above it.
  function MarketValueLowerBound(r: ReserveState, amount: Decimal): (v: Result<Decimal>)
    ensures var low := Min(r.liquidity.market_price, r.liquidity.smoothed_market_price);
            && (v.Ok? <==> low * amount <= U192_MAX && MintFactor(r.liquidity).Ok?)
            && (v.Ok? ==> v.value * (MintFactor(r.liquidity).value * WAD) <= low * amount
                          < (v.value + 1) * (MintFactor(r.liquidity).value * WAD))
    ensures v.Err? ==> v.error == MathOverflow
    ensures MarketValue(r, amount).Ok? ==> v.Ok? && v.value <= MarketValue(r, amount).value
  {
    var price := Min(r.liquidity.market_price, r.liquidity.smoothed_market_price);
    if MarketValue(r, amount).Ok? then
      ValueAtPriceMonotone(r.liquidity, price, r.liquidity.market_price, amount);
      ValueAtPrice(r.liquidity, price, amount)
    else
      ValueAtPrice(r.liquidity, price, amount)
  }

  /// `usd_to_liquidity_amount_lower_bound`: how many tokens a quote amount
  /// buys at the larger of the two prices; fails when both prices are zero.
  function UsdToLiquidityAmountLowerBound(r: ReserveState, quote: Decimal): (amount: Result<Decimal>)
    ensures amount.Ok? <==>
              && MintFactor(r.liquidity).Ok?
              && Max(r.liquidity.smoothed_market_price, r.liquidity.market_price) > 0
              && quote * (MintFactor(r.liquidity).value * WAD) <= U192_MAX
    ensures amount.Ok? ==>
              var top := Max(r.liquidity.smoothed_market_price, r.liquidity.market_price);
              amount.value * top <= quote * (MintFactor(r.liquidity).value * WAD) < (amount.value + 1) * top
    ensures amount.Err? ==> amount.error == MathOverflow
    ensures r.liquidity.market_price == 0 && r.liquidity.smoothed_market_price == 0 ==>
              amount == Err(MathOverflow)
  {
    var factor :- MintFactor(r.liquidity);
    var scaled :- DMul(quote, FactorAsDecimal(factor));
    // scaling by a whole factor is exact
    assert scaled == quote * factor;
    assert quote * (factor * WAD) == scaled * WAD;
    DDiv(scaled, Max(r.liquidity.smoothed_market_price, r.liquidity.market_price))
  }

  /// Valuing a token amount at the market price and converting the value
  /// back with the conservative price never yields more tokens.
  lemma MarketValueRoundTripNoGain(r: ReserveState, amount: Decimal)
    requires MarketValue(r, amount).Ok?
    requires UsdToLiquidityAmountLowerBound(r, MarketValue(r, amount).value).Ok?
    ensures UsdToLiquidityAmountLowerBound(r, MarketValue(r, amount).value).value <= amount
  {
    var l := r.liquidity;
    var v := MarketValue(r, amount).value;
    var y := UsdToLiquidityAmountLowerBound(r, v).value;
    var top := Max(l.smoothed_market_price, l.market_price);
    MulLe(l.market_price, top, amount);
    assert y * top <= amount * top;
    MulLtCancel(y, amount + 1, top);
  }

  /// At a market price of 25 and a smoothed price of 50 per whole token of
  /// nine decimals, ten thousand million base units are worth 250 at the
  /// market price and at the lower bound, and 500 at the upper bound; one
  /// base unit is worth 25 over 10^9.
  lemma MarketValueBoundsExample(r: ReserveState)
    requires r.liquidity.mint_decimals == 9
    requires r.liquidity.market_price == 25 * WAD && r.liquidity.smoothed_market_price == 50 * WAD
    ensures MarketValue(r, WAD) == Ok(25 * WAD / 1_000_000_000)
    ensures MarketValue(r, 10_000_000_000 * WAD) == Ok(250 * WAD)
    ensures MarketValueLowerBound(r, 10_000_000_000 * WAD) == Ok(250 * WAD)
    ensures MarketValueUpperBound(r, 10_000_000_000 * WAD) == Ok(500 * WAD)
  {
    assert Pow10(9) == 1_000_000_000;
    var unit := 1_000_000_000 * WAD;
    var one := MarketValue(r, WAD).value;
    MulLtCancel(one, 25 * WAD / 1_000_000_000 + 1, unit);
    MulLtCancel(25 * WAD / 1_000_000_000, one + 1, unit);
    var low := MarketValue(r, 10_000_000_000 * WAD).value;
    MulLtCancel(low, 250 * WAD + 1, unit);
    MulLtCancel(250 * WAD, low + 1, unit);
    var high := MarketValueUpperBound(r, 10_000_000_000 * WAD).value;
    MulLtCancel(high, 500 * WAD + 1, unit);
    MulLtCancel(500 * WAD, high + 1, unit);
  }

  /// `borrow_weight`: one plus the configured added weight in basis points;
  /// never below one.
  function BorrowWeight(c: ReserveConfig): (w: Decimal)
    ensures w >= WAD
    ensures w == WAD <==> c.added_borrow_weight_bps == 0
  {
    WAD + FromBps(c.added_borrow_weight_bps)
  }

  /// `loan_to_value_ratio`: the configured percentage as a rate, below one
  /// for every valid configuration.
  function LoanToValueRatio(c: ReserveConfig): (r: Rate)
    ensures ValidConfig(c) ==> r < WAD
    ensures r % PERCENT_SCALER == 0
  {
    FromPercent(c.loan_to_value_ratio)
  }

  // ----- interest --------------------------------------------------------

  /// The interest factor `(1 + rate / SLOTS_PER_YEAR)^slots`.
  function CompoundFactor(rate: Rate, slots: u64): (r: Result<Rate>)
    ensures r.Err? ==> r.error == MathOverflow
    // the per-slot factor, rounded down, raised to the elapsed slots
    ensures var base := WAD + rate / SLOTS_PER_YEAR;
            base <= U128_MAX && r == Pow(base, slots)
    ensures r.Ok? ==> r.value >= WAD
    ensures slots == 0 ==> r == Ok(WAD)
    ensures slots == 1 ==>
              var base := WAD + rate / SLOTS_PER_YEAR;
              (r.Ok? <==> base * base <= U128_MAX) && (r.Ok? ==> r.value == base)
    // a rate below one unit per slot rounds to no interest at all
    ensures rate < SLOTS_PER_YEAR ==> r == Ok(WAD)
    ensures r.Ok? && slots >= 1 && rate >= SLOTS_PER_YEAR ==> r.value > WAD
  {
    // dividing by a non-zero constant cannot fail, and the per-slot rate
    // is small enough that adding one cannot overflow
    var slotRate := RDivInt(rate, SLOTS_PER_YEAR).value;
    MulLe(2, SLOTS_PER_YEAR, slotRate);
    var base := RAdd(WAD, slotRate).value;
    var factor :- Pow(base, slots);
    PowBounds(base, slots);
    assert rate >= SLOTS_PER_YEAR ==> slotRate >= 1 by {
      if rate >= SLOTS_PER_YEAR {
        MulLtCancel(1, slotRate + 1, SLOTS_PER_YEAR);
      }
    }
    Ok(factor)
  }

  /// `compound_interest`: grows the cumulative borrow rate and the debt by
  /// the compounded factor and credits the protocol with `take_rate` of the
  /// new debt.
  function CompoundInterest(l: LiquidityState, rate: Rate, slots: u64, takeRate: Rate)
    : (r: Result<LiquidityState>)
    ensures r.Err? ==> r.error == MathOverflow
    // the cumulative rate and the debt are both scaled by the compound
    // factor, and the step after it is `AccrueAtFactor`
    ensures CompoundFactor(rate, slots).Err? ==> r == Err(MathOverflow)
    ensures CompoundFactor(rate, slots).Ok? ==> r == AccrueAtFactor(l, CompoundFactor(rate, slots).value, takeRate)
    ensures r.Ok? ==>
              var f := CompoundFactor(rate, slots);
              && f.Ok?
              && DMul(l.cumulative_borrow_rate_wads, f.value) == Ok(r.value.cumulative_borrow_rate_wads)
              && DMul(l.borrowed_amount_wads, f.value) == Ok(r.value.borrowed_amount_wads)
    // only the three interest fields change
    ensures r.Ok? ==> r.value.(cumulative_borrow_rate_wads := l.cumulative_borrow_rate_wads,
                               borrowed_amount_wads := l.borrowed_amount_wads,
                               accumulated_protocol_fees_wads := l.accumulated_protocol_fees_wads) == l
    // neither the cumulative rate nor the debt ever decreases
    ensures r.Ok? ==> r.value.cumulative_borrow_rate_wads >= l.cumulative_borrow_rate_wads
    ensures r.Ok? ==> r.value.borrowed_amount_wads >= l.borrowed_amount_wads
    // the protocol's fees grow by its take of the new debt
    ensures r.Ok? ==>
              var newDebt := r.value.borrowed_amount_wads - l.borrowed_amount_wads;
              DMul(newDebt, takeRate) ==
                Ok(r.value.accumulated_protocol_fees_wads - l.accumulated_protocol_fees_wads)
    // no elapsed slots, or a rate below one unit per slot: no interest, and
    // a failure only if a product by one overflows
    ensures slots == 0 || rate < SLOTS_PER_YEAR ==>
              && (r.Ok? <==> l.cumulative_borrow_rate_wads * WAD <= U192_MAX && l.borrowed_amount_wads * WAD <= U192_MAX)
              && (r.Ok? ==> r.value == l)
    // a rate of at least one unit per slot strictly grows a debt of at
    // least one token
    ensures r.Ok? && slots >= 1 && rate >= SLOTS_PER_YEAR && l.borrowed_amount_wads >= WAD ==>
              r.value.borrowed_amount_wads > l.borrowed_amount_wads
  {
    var factor :- CompoundFactor(rate, slots);
    AccrueAtFactor(l, factor, takeRate)
  }

  /// The step of `compound_interest` after the factor: both products, the
  /// new debt, the protocol's share of it and the new totals.
  function AccrueAtFactor(l: LiquidityState, factor: Rate, takeRate: Rate): (r: Result<LiquidityState>)
    requires factor >= WAD
    ensures r.Err? ==> r.error == MathOverflow
    ensures r.Ok? ==>
              && DMul(l.cumulative_borrow_rate_wads, factor) == Ok(r.value.cumulative_borrow_rate_wads)
              && DMul(l.borrowed_amount_wads, factor) == Ok(r.value.borrowed_amount_wads)
    // it fails exactly when one of the two products, the fee share or the
    // new fee total overflows
    ensures r.Ok? <==>
              && DMul(l.cumulative_borrow_rate_wads, factor).Ok?
              && DMul(l.borrowed_amount_wads, factor).Ok?
              && var newDebt := DSub(DMul(l.borrowed_amount_wads, factor).value, l.borrowed_amount_wads);
                 && newDebt.Ok?
                 && DMul(newDebt.value, takeRate).Ok?
                 && DMul(newDebt.value, takeRate).value + l.accumulated_protocol_fees_wads <= U192_MAX
    ensures r.Ok? ==> r.value.(cumulative_borrow_rate_wads := l.cumulative_borrow_rate_wads,
                               borrowed_amount_wads := l.borrowed_amount_wads,
                               accumulated_protocol_fees_wads := l.accumulated_protocol_fees_wads) == l
    ensures r.Ok? ==> r.value.cumulative_borrow_rate_wads >= l.cumulative_borrow_rate_wads
    ensures r.Ok? ==> r.value.borrowed_amount_wads >= l.borrowed_amount_wads
    ensures r.Ok? ==>
              var newDebt := r.value.borrowed_amount_wads - l.borrowed_amount_wads;
              DMul(newDebt, takeRate) ==
                Ok(r.value.accumulated_protocol_fees_wads - l.accumulated_protocol_fees_wads)
    // a factor of exactly one changes nothing
    ensures factor == WAD ==>
              && (r.Ok? <==> l.cumulative_borrow_rate_wads * WAD <= U192_MAX && l.borrowed_amount_wads * WAD <= U192_MAX)
              && (r.Ok? ==> r.value == l)
    ensures r.Ok? && factor > WAD && l.borrowed_amount_wads >= WAD ==>
              r.value.borrowed_amount_wads > l.borrowed_amount_wads
  {
    var cumulative :- DMul(l.cumulative_borrow_rate_wads, factor);
    var grown :- DMul(l.borrowed_amount_wads, factor);
    GrowsByFactor(l.cumulative_borrow_rate_wads, factor, cumulative);
    GrowsByFactor(l.borrowed_amount_wads, factor, grown);
    // the debt never shrinks, so neither the subtraction nor adding the
    // difference back can fail
    var newDebt := DSub(grown, l.borrowed_amount_wads).value;
    var feeShare :- DMul(newDebt, takeRate);
    var fees :- DAdd(feeShare, l.accumulated_protocol_fees_wads);
    var borrowed := DAdd(l.borrowed_amount_wads, newDebt).value;
    Ok(l.(cumulative_borrow_rate_wads := cumulative,
          borrowed_amount_wads := borrowed,
          accumulated_protocol_fees_wads := fees))
  }

  /// The liquidity after `accrue_interest` at `slot`: unchanged when no
  /// slot has elapsed, compounded at the current borrow rate otherwise.
  function AccruedLiquidity(r: ReserveState, slot: u64): (l: Result<LiquidityState>)
    ensures slot < r.last_update.slot ==> l == Err(MathOverflow)
    ensures slot == r.last_update.slot ==> l == Ok(r.liquidity)
    // after some slots: compounded at the current borrow rate, with the
    // configured share of the new interest taken by the protocol
    ensures slot > r.last_update.slot ==>
              l == if CurrentBorrowRate(r).Err? then Err(CurrentBorrowRate(r).error)
                   else CompoundInterest(r.liquidity, CurrentBorrowRate(r).value, slot - r.last_update.slot,
                                         FromPercent(r.config.protocol_take_rate))
    ensures l.Err? ==> l.error == MathOverflow
    ensures l.Ok? ==> l.value.cumulative_borrow_rate_wads >= r.liquidity.cumulative_borrow_rate_wads
    ensures l.Ok? ==> l.value.borrowed_amount_wads >= r.liquidity.borrowed_amount_wads
  {
    var elapsed :- SlotsElapsed(r.last_update, slot);
    if elapsed == 0 then
      Ok(r.liquidity)
    else
      var rate :- CurrentBorrowRate(r);
      CompoundInterest(r.liquidity, rate, elapsed, FromPercent(r.config.protocol_take_rate))
  }

  /// A curve flat at `p` percent: accrual after some slots leaves the
  /// liquidity as it was for a zero rate, and strictly grows a debt of at
  /// least one token for a positive one.
  lemma FlatRateAccrual(r: ReserveState, slot: u64, p: u8)
    requires r.config.min_borrow_rate == p && r.config.optimal_borrow_rate == p
    requires r.config.max_borrow_rate == p && r.config.super_max_borrow_rate == p
    requires r.last_update.slot < slot
    ensures p == 0 ==>
              && (AccruedLiquidity(r, slot).Ok? <==>
                    && UtilizationRate(r.liquidity).Ok?
                    && r.liquidity.cumulative_borrow_rate_wads * WAD <= U192_MAX
                    && r.liquidity.borrowed_amount_wads * WAD <= U192_MAX)
              && (AccruedLiquidity(r, slot).Ok? ==> AccruedLiquidity(r, slot).value == r.liquidity)
    ensures p > 0 && AccruedLiquidity(r, slot).Ok? && r.liquidity.borrowed_amount_wads >= WAD ==>
              AccruedLiquidity(r, slot).value.borrowed_amount_wads > r.liquidity.borrowed_amount_wads
  {
    assert RatesOrdered(r.config);
    if UtilizationRate(r.liquidity).Ok? {
      // the curve is pinned between its equal end rates
      assert CurrentBorrowRate(r) == Ok(p * PERCENT_SCALER);
    }
  }

  /// Accruing interest never lowers the total supply while the protocol
  /// takes at most all of the new interest: the debt grows by the interest
  /// and the protocol's fees by at most that much.
  lemma AccrualKeepsTotalSupply(r: ReserveState, slot: u64)
    requires r.config.protocol_take_rate <= 100
    requires AccruedLiquidity(r, slot).Ok?
    requires TotalSupply(r.liquidity).Ok? && TotalSupply(AccruedLiquidity(r, slot).value).Ok?
    ensures TotalSupply(AccruedLiquidity(r, slot).value).value >= TotalSupply(r.liquidity).value
  {
    var after := AccruedLiquidity(r, slot).value;
    if slot > r.last_update.slot {
      var takeRate := FromPercent(r.config.protocol_take_rate);
      var c := CompoundInterest(r.liquidity, CurrentBorrowRate(r).value, slot - r.last_update.slot, takeRate);
      assert c.Ok? && c.value == after;
      FeesWithinInterest(r.liquidity, after, takeRate);
    } else {
      assert after == r.liquidity;
    }
  }

  /// The arithmetic of `AccrualKeepsTotalSupply` on the two liquidity
  /// values: fees that grow by a take rate of at most one of the new debt.
  lemma FeesWithinInterest(l: LiquidityState, after: LiquidityState, takeRate: Decimal)
    requires takeRate <= WAD
    requires after.available_amount == l.available_amount
    requires after.borrowed_amount_wads >= l.borrowed_amount_wads
    requires DMul(after.borrowed_amount_wads - l.borrowed_amount_wads, takeRate)
             == Ok(after.accumulated_protocol_fees_wads - l.accumulated_protocol_fees_wads)
    requires TotalSupply(l).Ok? && TotalSupply(after).Ok?
    ensures TotalSupply(after).value >= TotalSupply(l).value
  {
    var newDebt := after.borrowed_amount_wads - l.borrowed_amount_wads;
    var newFees := after.accumulated_protocol_fees_wads - l.accumulated_protocol_fees_wads;
    MulLe(takeRate, WAD, newDebt);
    assert newFees * WAD <= newDebt * WAD;
    MulLtCancel(newFees, newDebt + 1, WAD);
  }

  /// More liquidity behind the same collateral never raises the exchange
  /// rate.
  lemma ExchangeRateAntitone(c: CollateralState, t1: Decimal, t2: Decimal)
    requires 0 < t1 <= t2
    requires ExchangeRate(c, t1).Ok?
    ensures ExchangeRate(c, t2).Ok? && ExchangeRate(c, t2).value <= ExchangeRate(c, t1).value
  {
    if c.mint_total_supply > 0 {
      var x := FromU64(c.mint_total_supply) * WAD;
      MulLe(t1, t2, U128_MAX + 1);
      assert x < (U128_MAX + 1) * t2;
      QuotientAntitone(x, t1, t2, ExchangeRate(c, t1).value, ExchangeRate(c, t2).value);
    }
  }

  /// A larger divisor gives a quotient no larger.
  lemma QuotientAntitone(x: nat, d1: nat, d2: nat, q1: nat, q2: nat)
    requires 0 < d1 <= d2
    requires q2 * d2 <= x < (q1 + 1) * d1
    ensures q2 <= q1
  {
    MulLe(d1, d2, q1 + 1);
    MulLtCancel(q2, q1 + 1, d2);
  }

  /// Accrual never raises the collateral exchange rate: collateral becomes
  /// worth at least as much liquidity as before. An empty reserve keeps the
  /// initial rate, so the total supply is required to be positive or the
  /// collateral supply to be zero; the total supply after accrual must still
  /// fit in 192 bits.
  lemma AccrualNeverRaisesExchangeRate(r: ReserveState, slot: u64)
    requires r.config.protocol_take_rate <= 100
    requires AccruedLiquidity(r, slot).Ok?
    requires CollateralExchangeRate(r).Ok?
    requires r.collateral.mint_total_supply == 0 || TotalSupply(r.liquidity).value > 0
    requires TotalSupply(AccruedLiquidity(r, slot).value).Ok?
    ensures var accrued := r.(liquidity := AccruedLiquidity(r, slot).value);
            CollateralExchangeRate(accrued).Ok?
            && CollateralExchangeRate(accrued).value <= CollateralExchangeRate(r).value
  {
    AccrualKeepsTotalSupply(r, slot);
    var before := TotalSupply(r.liquidity).value;
    var after := TotalSupply(AccruedLiquidity(r, slot).value).value;
    if r.collateral.mint_total_supply > 0 {
      ExchangeRateAntitone(r.collateral, before, after);
    }
  }

  /// Accrual need not lower the exchange rate strictly: with no collateral
  /// minted the rate is the initial one before and after, however much
  /// interest accrues.
  lemma AccrualWithoutCollateralKeepsRate(r: ReserveState, slot: u64)
    requires r.collateral.mint_total_supply == 0
    requires AccruedLiquidity(r, slot).Ok?
    requires TotalSupply(r.liquidity).Ok? && TotalSupply(AccruedLiquidity(r, slot).value).Ok?
    ensures var accrued := r.(liquidity := AccruedLiquidity(r, slot).value);
            CollateralExchangeRate(accrued) == CollateralExchangeRate(r) == Ok(INITIAL_COLLATERAL_RATE)
  {
  }
}
