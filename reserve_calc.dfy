/// The reserve's calculators: how much a borrow costs and may take, how a
/// repayment settles, the liquidation bonus, the split of a liquidation, the
/// protocol's cut of it and the fees the protocol may redeem. All of them
/// are pure computations over a reserve and an obligation's values.
module ReserveCalcs {
  import opened FixedPoint
  import opened ReserveConfigs
  import opened Reserves
  import opened Obligations

  // ----- borrow -----------------------------------------------------------

  datatype CalculateBorrowResult = CalculateBorrowResult(
    borrow_amount: Decimal,
    receive_amount: u64,
    borrow_fee: u64,
    host_fee: u64)

  /// `10u64.checked_pow(mint_decimals)`: the base-unit factor as a 64-bit
  /// integer, as the borrow calculation computes it.
  function MintFactorU64(l: LiquidityState): (r: Result<u64>)
    ensures r.Ok? <==> Pow10(l.mint_decimals) <= U64_MAX
    ensures r.Ok? ==> r.value == Pow10(l.mint_decimals) && MintFactor(l) == Ok(r.value)
    ensures r.Err? ==> r.error == MathOverflow
  {
    if Pow10(l.mint_decimals) <= U64_MAX then Ok(Pow10(l.mint_decimals)) else Err(MathOverflow)
  }

  /// The tokens `maxBorrowValue` buys at price `top`, for a token whose
  /// base unit is `decimals` of a whole one, divided by the borrow weight
  /// `w`: two rounded-down divisions. The result's weighted value at that
  /// price stays within the budget, and one more unit (plus the rounding of
  /// the first division) would exceed it.
  function WeightedBorrowLimit(maxBorrowValue: Decimal, decimals: u64, top: Decimal, w: Decimal)
    : (r: Result<Decimal>)
    requires w >= WAD
    ensures r.Err? ==> r.error == MathOverflow
    ensures top == 0 ==> r.Err?
    // defined exactly when the price is non-zero and the scaled budget and
    // the token count, each scaled once more by a division, fit
    ensures r.Ok? <==> top > 0 && maxBorrowValue * decimals * WAD <= U192_MAX
                       && maxBorrowValue * decimals * WAD / top * WAD <= U192_MAX
    ensures r.Ok? ==> r.value * w * top <= maxBorrowValue * decimals * WAD * WAD
                      < ((r.value + 1) * w + WAD) * top
  {
    assert maxBorrowValue * decimals * WAD <= U192_MAX ==> maxBorrowValue * decimals <= U192_MAX by {
      MulLe(1, WAD, maxBorrowValue * decimals);
    }
    var scaled :- DMulInt(maxBorrowValue, decimals);
    var tokens :- DDiv(scaled, top);
    var weighted :- DDiv(tokens, w);
    LimitBounds(scaled, top, w, tokens, weighted, WAD);
    Ok(weighted)
  }

  /// The arithmetic of `WeightedBorrowLimit` over an abstract scale `u`.
  lemma LimitBounds(scaled: nat, top: nat, w: nat, tokens: nat, weighted: nat, u: nat)
    requires top > 0 && w > 0 && u > 0
    requires tokens * top <= scaled * u < (tokens + 1) * top
    requires weighted * w <= tokens * u < (weighted + 1) * w
    ensures weighted * w * top <= scaled * u * u < ((weighted + 1) * w + u) * top
  {
    LimitUpper(scaled, top, w, tokens, weighted, u);
    LimitLower(scaled, top, w, tokens, weighted, u);
  }

  lemma LimitUpper(scaled: nat, top: nat, w: nat, tokens: nat, weighted: nat, u: nat)
    requires tokens * top <= scaled * u
    requires weighted * w <= tokens * u
    ensures weighted * w * top <= scaled * u * u
  {
    MulLe(weighted * w, tokens * u, top);
    MulLe(tokens * top, scaled * u, u);
    assert tokens * u * top == tokens * top * u;
  }

  lemma LimitLower(scaled: nat, top: nat, w: nat, tokens: nat, weighted: nat, u: nat)
    requires top > 0 && u > 0
    requires scaled * u < (tokens + 1) * top
    requires tokens * u < (weighted + 1) * w
    ensures scaled * u * u < ((weighted + 1) * w + u) * top
  {
    MulLtMono(scaled * u, (tokens + 1) * top, u);
    MulLe(tokens * u, (weighted + 1) * w, top);
    assert (tokens + 1) * top * u == tokens * u * top + u * top;
    assert ((weighted + 1) * w + u) * top == (weighted + 1) * w * top + u * top;
  }

  /// The most the borrow calculation lets a borrower take for
  /// `maxBorrowValue`, before the fee: the weighted limit at the higher of
  /// the two prices, capped by what the reserve may still lend and by what
  /// it holds.
  function MaxBorrowAmount(r: ReserveState, maxBorrowValue: Decimal, remainingReserveBorrow: Decimal)
    : (a: Result<Decimal>)
    ensures var top := Max(r.liquidity.market_price, r.liquidity.smoothed_market_price);
            && (a.Ok? <==> MintFactorU64(r.liquidity).Ok?
                           && WeightedBorrowLimit(maxBorrowValue, MintFactorU64(r.liquidity).value, top,
                                                  BorrowWeight(r.config)).Ok?)
            && (a.Ok? ==>
                  a.value == Min(Min(WeightedBorrowLimit(maxBorrowValue, MintFactorU64(r.liquidity).value, top,
                                                         BorrowWeight(r.config)).value,
                                     remainingReserveBorrow),
                                 FromU64(r.liquidity.available_amount)))
    ensures a.Ok? ==> a.value <= remainingReserveBorrow && a.value <= FromU64(r.liquidity.available_amount)
    ensures a.Ok? ==>
              var top := Max(r.liquidity.market_price, r.liquidity.smoothed_market_price);
              a.value * BorrowWeight(r.config) * top
                 <= maxBorrowValue * MintFactorU64(r.liquidity).value * WAD * WAD
    ensures a.Err? ==> a.error == MathOverflow
  {
    var decimals :- MintFactorU64(r.liquidity);
    var top := Max(r.liquidity.market_price, r.liquidity.smoothed_market_price);
    var weighted :- WeightedBorrowLimit(maxBorrowValue, decimals, top, BorrowWeight(r.config));
    var capped := Min(Min(weighted, remainingReserveBorrow), FromU64(r.liquidity.available_amount));
    CappedWithinBudget(capped, weighted, BorrowWeight(r.config), top, maxBorrowValue * decimals * WAD * WAD);
    Ok(capped)
  }

  /// Capping an amount keeps its weighted value within a budget the
  /// uncapped amount meets.
  lemma CappedWithinBudget(capped: nat, weighted: nat, w: nat, top: nat, budget: nat)
    requires capped <= weighted && weighted * w * top <= budget
    ensures capped * w * top <= budget
  {
    MulLe(capped, weighted, w);
    MulLe(capped * w, weighted * w, top);
  }

  /// `calculate_borrow` for `u64::MAX`: as much as the value limit, the
  /// reserve's remaining borrow capacity and its available liquidity allow,
  /// with the fee taken out of the amount.
  function BorrowMax(r: ReserveState, maxBorrowValue: Decimal, remainingReserveBorrow: Decimal)
    : (res: Result<CalculateBorrowResult>)
    ensures res.Ok? ==>
              var b := res.value;
              && MaxBorrowAmount(r, maxBorrowValue, remainingReserveBorrow) == Ok(b.borrow_amount)
              && CalculateBorrowFees(r.config.fees, b.borrow_amount, Inclusive) == Ok((b.borrow_fee, b.host_fee))
              && Floor(b.borrow_amount) == Ok(b.receive_amount + b.borrow_fee)
    // it fails at the first failing step: the maximum amount, the fee, or a
    // fee above the whole tokens of the amount
    ensures MaxBorrowAmount(r, maxBorrowValue, remainingReserveBorrow).Err? ==>
              res == Err(MaxBorrowAmount(r, maxBorrowValue, remainingReserveBorrow).error)
    ensures var amount := MaxBorrowAmount(r, maxBorrowValue, remainingReserveBorrow);
            amount.Ok? && CalculateBorrowFees(r.config.fees, amount.value, Inclusive).Err? ==>
              res == Err(CalculateBorrowFees(r.config.fees, amount.value, Inclusive).error)
    ensures var amount := MaxBorrowAmount(r, maxBorrowValue, remainingReserveBorrow);
            amount.Ok? && CalculateBorrowFees(r.config.fees, amount.value, Inclusive).Ok? ==>
              && Floor(amount.value).Ok?
              && (res.Ok? <==> Floor(amount.value).value >= CalculateBorrowFees(r.config.fees, amount.value, Inclusive).value.0)
              && (res.Err? ==> res.error == MathOverflow)
    ensures res.Err? ==> res.error == MathOverflow || res.error == BorrowTooSmall
  {
    var borrowAmount :- MaxBorrowAmount(r, maxBorrowValue, remainingReserveBorrow);
    var fees :- CalculateBorrowFees(r.config.fees, borrowAmount, Inclusive);
    // the amount is capped by the available liquidity, so it floors to 64 bits
    var whole := Floor(borrowAmount).value;
    if whole < fees.0 then
      Err(MathOverflow)
    else
      Ok(CalculateBorrowResult(borrowAmount, whole - fees.0, fees.0, fees.1))
  }

  /// `calculate_borrow` for a specific amount: the borrower receives it and
  /// owes it plus the fee, provided the owed amount's weighted value at the
  /// higher price is within the limit.
  function BorrowExact(r: ReserveState, amountToBorrow: u64, maxBorrowValue: Decimal)
    : (res: Result<CalculateBorrowResult>)
    ensures res.Ok? ==>
              var b := res.value;
              && b.receive_amount == amountToBorrow
              && CalculateBorrowFees(r.config.fees, FromU64(amountToBorrow), Exclusive)
                   == Ok((b.borrow_fee, b.host_fee))
              && b.borrow_amount == FromU64(amountToBorrow) + FromU64(b.borrow_fee)
              && MarketValueUpperBound(r, b.borrow_amount).Ok?
              && DMul(MarketValueUpperBound(r, b.borrow_amount).value, BorrowWeight(r.config)).Ok?
              && DMul(MarketValueUpperBound(r, b.borrow_amount).value, BorrowWeight(r.config)).value
                   <= maxBorrowValue
    ensures res == Err(BorrowTooLarge) ==>
              var fees := CalculateBorrowFees(r.config.fees, FromU64(amountToBorrow), Exclusive);
              && fees.Ok?
              && var value := MarketValueUpperBound(r, FromU64(amountToBorrow) + FromU64(fees.value.0));
                 && value.Ok?
                 && DMul(value.value, BorrowWeight(r.config)).Ok?
                 && DMul(value.value, BorrowWeight(r.config)).value > maxBorrowValue
    // and conversely: once the fee and the weighted value are defined, the
    // borrow is refused exactly when that value exceeds the limit
    ensures var fees := CalculateBorrowFees(r.config.fees, FromU64(amountToBorrow), Exclusive);
            fees.Ok? ==>
              var value := MarketValueUpperBound(r, FromU64(amountToBorrow) + FromU64(fees.value.0));
              value.Ok? && DMul(value.value, BorrowWeight(r.config)).Ok? ==>
                (res.Ok? <==> DMul(value.value, BorrowWeight(r.config)).value <= maxBorrowValue)
    ensures res.Err? ==> res.error in {MathOverflow, BorrowTooSmall, BorrowTooLarge}
  {
    var borrowAmount := FromU64(amountToBorrow);
    var fees :- CalculateBorrowFees(r.config.fees, borrowAmount, Exclusive);
    // the fee never exceeds the amount, so the sum fits
    FeeAtMostAmount(amountToBorrow, fees.0);
    var owed := DAdd(borrowAmount, FromU64(fees.0)).value;
    var value :- MarketValueUpperBound(r, owed);
    var borrowValue :- DMul(value, BorrowWeight(r.config));
    if borrowValue > maxBorrowValue then
      Err(BorrowTooLarge)
    else
      Ok(CalculateBorrowResult(owed, amountToBorrow, fees.0, fees.1))
  }

  /// A fee that rounds to below the amount plus half a token is at most the
  /// amount.
  lemma FeeAtMostAmount(amount: u64, fee: u64)
    requires fee == 0 || fee * WAD < FromU64(amount) + HALF_WAD
    ensures fee <= amount
  {
    if fee > 0 {
      MulLtCancel(fee, amount + 1, WAD);
    }
  }

  /// `calculate_borrow`: the maximum borrow for `u64::MAX`, otherwise
  /// exactly the requested amount; both need the token's decimals factor to
  /// fit in 64 bits.
  function CalculateBorrow(r: ReserveState, amountToBorrow: u64, maxBorrowValue: Decimal,
                           remainingReserveBorrow: Decimal)
    : (res: Result<CalculateBorrowResult>)
    ensures MintFactorU64(r.liquidity).Err? ==> res == Err(MathOverflow)
    ensures MintFactorU64(r.liquidity).Ok? ==>
              res == if amountToBorrow == U64_MAX then BorrowMax(r, maxBorrowValue, remainingReserveBorrow)
                     else BorrowExact(r, amountToBorrow, maxBorrowValue)
  {
    var _ :- MintFactorU64(r.liquidity);
    if amountToBorrow == U64_MAX then
      BorrowMax(r, maxBorrowValue, remainingReserveBorrow)
    else
      BorrowExact(r, amountToBorrow, maxBorrowValue)
  }

  /// The maximum borrow never exceeds the value limit: its upper-bound
  /// market value times the borrow weight, computed as an exact borrow is
  /// checked, is at most `maxBorrowValue`.
  lemma MaxBorrowWithinLimit(r: ReserveState, maxBorrowValue: Decimal, remainingReserveBorrow: Decimal)
    requires MaxBorrowAmount(r, maxBorrowValue, remainingReserveBorrow).Ok?
    requires var a := MaxBorrowAmount(r, maxBorrowValue, remainingReserveBorrow).value;
             MarketValueUpperBound(r, a).Ok?
             && DMul(MarketValueUpperBound(r, a).value, BorrowWeight(r.config)).Ok?
    ensures var a := MaxBorrowAmount(r, maxBorrowValue, remainingReserveBorrow).value;
            DMul(MarketValueUpperBound(r, a).value, BorrowWeight(r.config)).value <= maxBorrowValue
  {
    var a := MaxBorrowAmount(r, maxBorrowValue, remainingReserveBorrow).value;
    var l := r.liquidity;
    var top := Max(l.market_price, l.smoothed_market_price);
    var f := MintFactor(l).value;
    var w := BorrowWeight(r.config);
    var v := MarketValueUpperBound(r, a).value;
    var bv := DMul(v, w).value;
    // v * (f * WAD) <= top * a, from the valuation at the higher price
    assert v * (f * WAD) <= top * a;
    WithinLimit(a, top, w, f, v, bv, maxBorrowValue);
  }

  /// The arithmetic of `MaxBorrowWithinLimit`: a value `v` of `a` tokens at
  /// price `top` (factor `f`), weighted by `w` and rounded down, stays
  /// within a budget `m` that `a` was derived from.
  lemma WithinLimit(a: nat, top: nat, w: nat, f: nat, v: nat, bv: nat, m: nat)
    requires f >= 1
    requires a * w * top <= m * f * WAD * WAD
    requires v * (f * WAD) <= top * a
    requires bv * WAD <= v * w
    ensures bv <= m
  {
    MulLe(bv * WAD, v * w, f * WAD);
    MulLe(v * (f * WAD), top * a, w);
    assert bv * WAD * (f * WAD) <= v * w * (f * WAD) == v * (f * WAD) * w;
    assert top * a * w == a * w * top;
    assert bv * (f * WAD * WAD) <= m * (f * WAD * WAD);
    MulLtCancel(bv, m + 1, f * WAD * WAD);
  }

  // ----- repay ------------------------------------------------------------

  datatype CalculateRepayResult = CalculateRepayResult(settle_amount: Decimal, repay_amount: u64)

  /// `calculate_repay`: settles the requested amount, at most the debt (all
  /// of it for `u64::MAX`), and charges its ceiling in whole tokens.
  function CalculateRepay(amountToRepay: u64, borrowedAmount: Decimal): (r: Result<CalculateRepayResult>)
    ensures r.Ok? ==> r.value.settle_amount <= borrowedAmount
    ensures r.Ok? ==> Ceil(r.value.settle_amount) == Ok(r.value.repay_amount)
    ensures amountToRepay == U64_MAX && r.Ok? ==> r.value.settle_amount == borrowedAmount
    // repaying everything needs the debt's ceiling to fit 64 bits
    ensures amountToRepay == U64_MAX ==> (r.Ok? <==> borrowedAmount <= U64_MAX * WAD)
    // a specific amount always succeeds and never charges more than asked
    ensures amountToRepay != U64_MAX ==>
              r.Ok? && r.value.settle_amount == Min(FromU64(amountToRepay), borrowedAmount)
              && r.value.repay_amount <= amountToRepay
    ensures r.Err? ==> r.error == MathOverflow
  {
    var settle := if amountToRepay == U64_MAX then borrowedAmount
                  else Min(FromU64(amountToRepay), borrowedAmount);
    var repay :- Ceil(settle);
    assert amountToRepay != U64_MAX ==> repay <= amountToRepay by {
      if amountToRepay != U64_MAX {
        assert repay * WAD < amountToRepay * WAD + WAD;
        MulLtCancel(repay, amountToRepay + 1, WAD);
      }
    }
    Ok(CalculateRepayResult(settle, repay))
  }

  // ----- liquidation bonus -------------------------------------------------

  /// The cap on any liquidation bonus, as a scaled value.
  function MaxBonus(): (d: Decimal)
    ensures d == 25 * PERCENT_SCALER
  {
    FromPercent(MAX_BONUS_PCT)
  }

  /// `calculate_bonus`: the liquidation bonus as a scaled fraction. It moves
  /// from the liquidation bonus at the unhealthy borrow value to the
  /// maximum bonus at the super-unhealthy value, adds the protocol's fee,
  /// and is capped at 25%. A healthy obligation has no bonus.
  function CalculateBonus(c: ReserveConfig, o: ObligationHealth): (r: Result<Decimal>)
    ensures o.borrowed_value < o.unhealthy_borrow_value ==> r == Err(ObligationHealthy)
    ensures r.Err? <==>
              || o.borrowed_value < o.unhealthy_borrow_value
              || (o.unhealthy_borrow_value != o.super_unhealthy_borrow_value
                  && (o.super_unhealthy_borrow_value < o.unhealthy_borrow_value
                      || c.max_liquidation_bonus < c.liquidation_bonus))
    ensures r.Err? ==> r.error == ObligationHealthy || r.error == MathOverflow
    ensures r.Ok? ==> r.value <= MaxBonus()
    ensures r.Ok? ==>
              Min(FromPercent(c.liquidation_bonus) + FromDecaBps(c.protocol_liquidation_fee), MaxBonus())
                <= r.value
                <= Min(FromPercent(c.max_liquidation_bonus) + FromDecaBps(c.protocol_liquidation_fee), MaxBonus())
              || o.unhealthy_borrow_value == o.super_unhealthy_borrow_value
    ensures r.Ok? && o.unhealthy_borrow_value == o.super_unhealthy_borrow_value ==>
              r.value == Min(FromPercent(c.liquidation_bonus) + FromDecaBps(c.protocol_liquidation_fee), MaxBonus())
    // an obligation at or past the super-unhealthy value gets the maximum bonus
    ensures r.Ok? && o.unhealthy_borrow_value < o.super_unhealthy_borrow_value <= o.borrowed_value ==>
              r.value == Min(FromPercent(c.max_liquidation_bonus) + FromDecaBps(c.protocol_liquidation_fee), MaxBonus())
    // in between, the bonus moves linearly with the borrowed value's
    // position between the two thresholds
    ensures r.Ok? && o.unhealthy_borrow_value < o.super_unhealthy_borrow_value ==>
              r.value == InterpolatedBonus(c, Min(BonusWeight(o.borrowed_value - o.unhealthy_borrow_value,
                                                              o.super_unhealthy_borrow_value - o.unhealthy_borrow_value), WAD))
  {
    if o.borrowed_value < o.unhealthy_borrow_value then
      Err(ObligationHealthy)
    else
      var bonus := FromPercent(c.liquidation_bonus);
      var maxBonus := FromPercent(c.max_liquidation_bonus);
      var protocolFee := FromDecaBps(c.protocol_liquidation_fee);
      if o.unhealthy_borrow_value == o.super_unhealthy_borrow_value then
        Ok(Min(DAdd(bonus, protocolFee).value, MaxBonus()))
      else
        // the borrowed value is at least the unhealthy value here
        var excess := DSub(o.borrowed_value, o.unhealthy_borrow_value).value;
        var spread :- DSub(o.super_unhealthy_borrow_value, o.unhealthy_borrow_value);
        var weight := Min(BonusWeight(excess, spread), WAD);
        var range :- DSub(maxBonus, bonus);
        MulLe(weight, WAD, range);
        var scaled := DMul(weight, range).value;
        ScaleFacts(weight, range, scaled);
        Ok(Min(bonus + scaled + protocolFee, MaxBonus()))
  }

  /// The bonus at capped weight `w` between the two thresholds: the base
  /// bonus plus that share of the step to the maximum bonus, plus the
  /// protocol's fee, capped at 25%.
  function InterpolatedBonus(c: ReserveConfig, w: nat): int
  {
    var range := FromPercent(c.max_liquidation_bonus) - FromPercent(c.liquidation_bonus);
    Min(FromPercent(c.liquidation_bonus) + w * range / WAD + FromDecaBps(c.protocol_liquidation_fee), MaxBonus())
  }

  /// A larger weight never interpolates to a smaller bonus.
  lemma InterpolatedBonusMonotone(c: ReserveConfig, w1: nat, w2: nat)
    requires c.liquidation_bonus <= c.max_liquidation_bonus && w1 <= w2
    ensures InterpolatedBonus(c, w1) <= InterpolatedBonus(c, w2)
  {
    var range: nat := FromPercent(c.max_liquidation_bonus) - FromPercent(c.liquidation_bonus);
    MulLe(w1, w2, range);
    DivLe(w1 * range, w2 * range, WAD);
  }

  /// The position of the borrowed value between the unhealthy and the
  /// super-unhealthy value; a division that overflows counts as one.
  function BonusWeight(excess: Decimal, spread: Decimal): (w: Decimal)
    requires spread > 0
    ensures excess >= spread ==> w >= WAD
    // the rounded-down ratio when it fits, one otherwise
    ensures excess * WAD <= U192_MAX ==> w * spread <= excess * WAD < (w + 1) * spread
    ensures excess * WAD > U192_MAX ==> w == WAD
  {
    var ratio := DDiv(excess, spread);
    if ratio.Ok? then
      assert excess >= spread ==> ratio.value >= WAD by {
        if excess >= spread {
          MulLe(spread, excess, WAD);
          MulLtCancel(WAD, ratio.value + 1, spread);
        }
      }
      ratio.value
    else
      WAD
  }

  /// A larger excess never gives a smaller capped weight.
  lemma BonusWeightMonotone(e1: Decimal, e2: Decimal, spread: Decimal)
    requires spread > 0 && e1 <= e2
    ensures Min(BonusWeight(e1, spread), WAD) <= Min(BonusWeight(e2, spread), WAD)
  {
    if e2 * WAD <= U192_MAX {
      MulLe(e1, e2, WAD);
      var w1, w2 := BonusWeight(e1, spread), BonusWeight(e2, spread);
      assert w1 * spread <= e2 * WAD < (w2 + 1) * spread;
      MulLtCancel(w1, w2 + 1, spread);
    }
  }

  /// The bonus never falls as the borrowed value rises between the same
  /// thresholds: a healthier obligation is liquidated at no greater
  /// discount.
  lemma CalculateBonusMonotone(c: ReserveConfig, o1: ObligationHealth, o2: ObligationHealth)
    requires o1.unhealthy_borrow_value == o2.unhealthy_borrow_value
    requires o1.super_unhealthy_borrow_value == o2.super_unhealthy_borrow_value
    requires o1.borrowed_value <= o2.borrowed_value
    requires CalculateBonus(c, o1).Ok?
    ensures CalculateBonus(c, o2).Ok? && CalculateBonus(c, o1).value <= CalculateBonus(c, o2).value
  {
    BonusStaysDefined(c, o1, o2);
    var u, s := o1.unhealthy_borrow_value, o1.super_unhealthy_borrow_value;
    if u < s {
      BonusWeightMonotone(o1.borrowed_value - u, o2.borrowed_value - u, s - u);
      InterpolatedBonusMonotone(c, Min(BonusWeight(o1.borrowed_value - u, s - u), WAD),
                                Min(BonusWeight(o2.borrowed_value - u, s - u), WAD));
    }
  }

  /// Between the same thresholds, a bonus defined for one borrowed value is
  /// defined for any larger one.
  lemma BonusStaysDefined(c: ReserveConfig, o1: ObligationHealth, o2: ObligationHealth)
    requires o1.unhealthy_borrow_value == o2.unhealthy_borrow_value
    requires o1.super_unhealthy_borrow_value == o2.super_unhealthy_borrow_value
    requires o1.borrowed_value <= o2.borrowed_value
    requires CalculateBonus(c, o1).Ok?
    ensures CalculateBonus(c, o2).Ok?
  {
  }

  /// A borrowed value halfway between thresholds of 50 and 150 earns half
  /// of the step from a 10% to a 20% bonus, plus the 1% protocol fee.
  lemma BonusHalfwayExample(c: ReserveConfig)
    requires c.liquidation_bonus == 10 && c.max_liquidation_bonus == 20 && c.protocol_liquidation_fee == 10
    ensures CalculateBonus(c, ObligationHealth(100 * WAD, 50 * WAD, 150 * WAD)) == Ok(FromPercent(16))
  {
    var o := ObligationHealth(100 * WAD, 50 * WAD, 150 * WAD);
    assert BonusWeight(50 * WAD, 100 * WAD) == WAD / 2;
  }

  // ----- liquidation -------------------------------------------------------

  datatype CalculateLiquidationResult = CalculateLiquidationResult(
    settle_amount: Decimal,
    repay_amount: u64,
    withdraw_amount: u64,
    bonus_rate: Decimal)

  /// `calculate_liquidation`: how much of a borrow a liquidator settles,
  /// how many tokens it repays and how much collateral it withdraws.
  /// `maxLiquidationAmount` is the obligation's own limit on one
  /// liquidation of this borrow (`Obligation::max_liquidation_amount`),
  /// passed in because the obligation module is not part of this model.
  /// A borrow worth at most one unit is liquidated in full; otherwise at
  /// most the requested amount and the obligation's limit. When the
  /// collateral is worth less than the bonus-inflated liquidation value the
  /// settled amount is scaled down and all collateral is withdrawn.
  function CalculateLiquidation(c: ReserveConfig, amountToLiquidate: u64, o: ObligationHealth,
                                maxLiquidationAmount: Result<Decimal>,
                                liquidity: ObligationLiquidity, collateral: ObligationCollateral)
    : (r: Result<CalculateLiquidationResult>)
    requires maxLiquidationAmount.Err? ==> maxLiquidationAmount.error == MathOverflow
    ensures CalculateBonus(c, o).Err? ==> r == Err(CalculateBonus(c, o).error)
    ensures r.Ok? ==> r.value.settle_amount <= liquidity.borrowed_amount_wads
    ensures r.Ok? ==> Ceil(r.value.settle_amount) == Ok(r.value.repay_amount)
    ensures r.Ok? ==> r.value.withdraw_amount <= Max(collateral.deposited_amount, 1)
    ensures r.Ok? ==> r.value.bonus_rate == CalculateBonus(c, o).value + WAD
                      && WAD <= r.value.bonus_rate <= WAD + MaxBonus()
    // a partial liquidation settles at most the requested amount
    ensures r.Ok? && liquidity.market_value > WAD && amountToLiquidate != U64_MAX ==>
              r.value.settle_amount <= FromU64(amountToLiquidate)
    // only a full liquidation of a zero debt is too small
    ensures r == Err(LiquidationTooSmall) ==>
              liquidity.market_value <= WAD && liquidity.borrowed_amount_wads == 0
    ensures r.Err? ==> r.error in {ObligationHealthy, MathOverflow, LiquidationTooSmall}
    // a partial liquidation never settles more than the obligation's limit
    ensures r.Ok? && liquidity.market_value > WAD ==>
              maxLiquidationAmount.Ok? && r.value.settle_amount <= maxLiquidationAmount.value
    // which branch decides the split
    ensures CalculateBonus(c, o).Ok? && liquidity.market_value <= WAD ==>
              r == FullLiquidation(CalculateBonus(c, o).value + WAD, liquidity, collateral)
    ensures CalculateBonus(c, o).Ok? && liquidity.market_value > WAD ==>
              r == if maxLiquidationAmount.Err? then Err(MathOverflow)
                   else PartialLiquidation(CalculateBonus(c, o).value + WAD,
                                           Min(maxLiquidationAmount.value,
                                               if amountToLiquidate == U64_MAX then liquidity.borrowed_amount_wads
                                               else Min(FromU64(amountToLiquidate), liquidity.borrowed_amount_wads)),
                                           liquidity, collateral)
  {
    var bonus :- CalculateBonus(c, o);
    // the bonus is at most 25%
    assert bonus <= MaxBonus();
    var bonusRate := DAdd(bonus, WAD).value;
    LiquidationAtRate(bonusRate, amountToLiquidate, maxLiquidationAmount, liquidity, collateral)
  }

  /// `calculate_liquidation` once the bonus rate is known: the amount to
  /// liquidate is capped by the debt, and the split is full or partial by
  /// the borrow's value.
  function LiquidationAtRate(bonusRate: Decimal, amountToLiquidate: u64, maxLiquidationAmount: Result<Decimal>,
                             liquidity: ObligationLiquidity, collateral: ObligationCollateral)
    : (r: Result<CalculateLiquidationResult>)
    requires WAD <= bonusRate <= WAD + MaxBonus()
    requires maxLiquidationAmount.Err? ==> maxLiquidationAmount.error == MathOverflow
    ensures r.Ok? ==> r.value.settle_amount <= liquidity.borrowed_amount_wads
    ensures r.Ok? ==> Ceil(r.value.settle_amount) == Ok(r.value.repay_amount)
    ensures r.Ok? ==> r.value.withdraw_amount <= Max(collateral.deposited_amount, 1)
    ensures r.Ok? ==> r.value.bonus_rate == bonusRate
    ensures r.Ok? && liquidity.market_value > WAD && amountToLiquidate != U64_MAX ==>
              r.value.settle_amount <= FromU64(amountToLiquidate)
    ensures r == Err(LiquidationTooSmall) ==>
              liquidity.market_value <= WAD && liquidity.borrowed_amount_wads == 0
    ensures r.Err? ==> r.error == MathOverflow || r.error == LiquidationTooSmall
    ensures r.Ok? && liquidity.market_value > WAD ==>
              maxLiquidationAmount.Ok? && r.value.settle_amount <= maxLiquidationAmount.value
    ensures liquidity.market_value <= WAD ==> r == FullLiquidation(bonusRate, liquidity, collateral)
    ensures liquidity.market_value > WAD ==>
              r == if maxLiquidationAmount.Err? then Err(MathOverflow)
                   else PartialLiquidation(bonusRate,
                                           Min(maxLiquidationAmount.value,
                                               if amountToLiquidate == U64_MAX then liquidity.borrowed_amount_wads
                                               else Min(FromU64(amountToLiquidate), liquidity.borrowed_amount_wads)),
                                           liquidity, collateral)
  {
    var maxAmount := if amountToLiquidate == U64_MAX then liquidity.borrowed_amount_wads
                     else Min(FromU64(amountToLiquidate), liquidity.borrowed_amount_wads);
    if liquidity.market_value <= WAD then
      FullLiquidation(bonusRate, liquidity, collateral)
    else
      var limit :- maxLiquidationAmount;
      PartialLiquidation(bonusRate, Min(limit, maxAmount), liquidity, collateral)
  }

  /// The branch of `calculate_liquidation` for a borrow worth at most one
  /// unit: settle the whole debt, or as much of it as the collateral
  /// covers, and withdraw at least one collateral token.
  function FullLiquidation(bonusRate: Decimal, liquidity: ObligationLiquidity, collateral: ObligationCollateral)
    : (r: Result<CalculateLiquidationResult>)
    requires WAD <= bonusRate <= WAD + MaxBonus()
    requires liquidity.market_value <= WAD
    ensures r.Ok? ==> r.value.settle_amount <= liquidity.borrowed_amount_wads
    ensures r.Ok? ==> Ceil(r.value.settle_amount) == Ok(r.value.repay_amount)
    ensures r.Ok? ==> r.value.withdraw_amount <= Max(collateral.deposited_amount, 1)
    ensures r.Ok? ==> r.value.bonus_rate == bonusRate
    ensures r.Err? ==> r.error == MathOverflow || r.error == LiquidationTooSmall
    // with `lv` the bonus-inflated value of the debt: collateral worth less
    // than `lv` is withdrawn in full and settles only its share of the debt
    ensures var lv := liquidity.market_value * bonusRate / WAD;
            r.Ok? && lv > collateral.market_value ==>
              && r.value.withdraw_amount == collateral.deposited_amount
              && r.value.settle_amount * lv <= liquidity.borrowed_amount_wads * collateral.market_value
    // otherwise the whole debt is settled, for at most the collateral's
    // share worth `lv` (and at least one token)
    ensures var lv := liquidity.market_value * bonusRate / WAD;
            r.Ok? && lv <= collateral.market_value ==> r.value.settle_amount == liquidity.borrowed_amount_wads
    ensures var lv := liquidity.market_value * bonusRate / WAD;
            r.Ok? && lv == collateral.market_value ==> r.value.withdraw_amount == collateral.deposited_amount
    ensures var lv := liquidity.market_value * bonusRate / WAD;
            r.Ok? && lv < collateral.market_value ==>
              r.value.withdraw_amount == 1
              || r.value.withdraw_amount * collateral.market_value <= collateral.deposited_amount * lv
    // neither share falls short by more than the roundings
    ensures var lv := liquidity.market_value * bonusRate / WAD;
            r.Ok? && lv > collateral.market_value ==>
              liquidity.borrowed_amount_wads * collateral.market_value * WAD
                < ((r.value.settle_amount + 1) * WAD + liquidity.borrowed_amount_wads) * lv
    ensures var lv := liquidity.market_value * bonusRate / WAD;
            r.Ok? && lv < collateral.market_value ==>
              collateral.deposited_amount * lv * WAD
                < ((r.value.withdraw_amount + 1) * WAD + collateral.deposited_amount) * collateral.market_value
    ensures var lv := liquidity.market_value * bonusRate / WAD;
            r == Err(LiquidationTooSmall) <==> lv < collateral.market_value && liquidity.borrowed_amount_wads == 0
    // when it succeeds: the repay amount, the ceiling of the settled debt,
    // must fit 64 bits, and a debt settled in full must not be zero
    ensures var lv := liquidity.market_value * bonusRate / WAD;
            lv > collateral.market_value ==>
              var pct := collateral.market_value * WAD / lv;
              (r.Ok? <==> liquidity.borrowed_amount_wads * pct <= U192_MAX
                          && liquidity.borrowed_amount_wads * pct / WAD <= U64_MAX * WAD)
    ensures var lv := liquidity.market_value * bonusRate / WAD;
            lv <= collateral.market_value ==>
              (r.Ok? <==> liquidity.borrowed_amount_wads <= U64_MAX * WAD
                          && (lv < collateral.market_value ==> liquidity.borrowed_amount_wads > 0))
  {
    // a value of at most one unit times a rate of at most 1.25 cannot overflow
    MulLe(liquidity.market_value, WAD, bonusRate);
    MulLe(bonusRate, WAD + MaxBonus(), WAD);
    var liquidationValue := DMul(liquidity.market_value, bonusRate).value;
    MulLtCancel(liquidationValue, WAD + MaxBonus() + 1, WAD);
    if liquidationValue > collateral.market_value then
      // the collateral covers only part of the debt
      MulLe(collateral.market_value, liquidationValue, WAD);
      var repayPct := DDiv(collateral.market_value, liquidationValue).value;
      RatioFacts(collateral.market_value, liquidationValue, repayPct);
      var settle :- DMul(liquidity.borrowed_amount_wads, repayPct);
      GrowsNoMore(liquidity.borrowed_amount_wads, repayPct, settle);
      ScaledSettle(liquidity.borrowed_amount_wads, repayPct, settle, liquidationValue, collateral.market_value);
      SettleLower(liquidity.borrowed_amount_wads, repayPct, settle, liquidationValue, collateral.market_value);
      var repay :- Ceil(settle);
      Ok(CalculateLiquidationResult(settle, repay, collateral.deposited_amount, bonusRate))
    else if liquidationValue == collateral.market_value then
      var settle := liquidity.borrowed_amount_wads;
      var repay :- Ceil(settle);
      Ok(CalculateLiquidationResult(settle, repay, collateral.deposited_amount, bonusRate))
    else
      MulLe(liquidationValue, WAD + MaxBonus(), WAD);
      var withdrawPct := DDiv(liquidationValue, collateral.market_value).value;
      RatioFacts(liquidationValue, collateral.market_value, withdrawPct);
      var settle := liquidity.borrowed_amount_wads;
      var repay :- Ceil(settle);
      if repay == 0 then
        Err(LiquidationTooSmall)
      else
        var withdraw := ShareOfDeposit(collateral.deposited_amount, withdrawPct);
        WithdrawShare(collateral.deposited_amount, withdrawPct, withdraw, liquidationValue, collateral.market_value);
        WithdrawLower(collateral.deposited_amount, withdrawPct, withdraw, liquidationValue, collateral.market_value);
        MulLe((withdraw + 1) * WAD + collateral.deposited_amount,
              (Max(withdraw, 1) + 1) * WAD + collateral.deposited_amount, collateral.market_value);
        Ok(CalculateLiquidationResult(settle, repay, Max(withdraw, 1), bonusRate))
  }

  /// The bonus-inflated value of settling `amount` of a borrow: its share
  /// of the borrow's market value, times the bonus rate, each step rounded
  /// down.
  function PartialLiquidationValue(bonusRate: Decimal, amount: Decimal, liquidity: ObligationLiquidity)
    : (r: Result<Decimal>)
    ensures r.Err? ==> r.error == MathOverflow
    ensures liquidity.borrowed_amount_wads == 0 ==> r.Err?
    // defined exactly when the three steps fit
    ensures r.Ok? <==> liquidity.borrowed_amount_wads > 0 && amount * WAD <= U192_MAX
                       && var pct := amount * WAD / liquidity.borrowed_amount_wads;
                          && liquidity.market_value * pct <= U192_MAX
                          && liquidity.market_value * pct / WAD * bonusRate <= U192_MAX
    // `amount / borrowed * mv * bonus`, rounded down three times: never
    // above it, and short of it by at most the three roundings
    ensures r.Ok? ==>
              r.value * liquidity.borrowed_amount_wads * WAD <= liquidity.market_value * amount * bonusRate
    ensures r.Ok? ==>
              liquidity.market_value * amount * bonusRate * WAD
                < ((r.value + 1) * WAD * WAD + bonusRate * WAD + liquidity.market_value * bonusRate)
                  * liquidity.borrowed_amount_wads
  {
    var pct :- DDiv(amount, liquidity.borrowed_amount_wads);
    var partialValue :- DMul(liquidity.market_value, pct);
    var value :- DMul(partialValue, bonusRate);
    PartialValueBound(amount, liquidity.borrowed_amount_wads, liquidity.market_value, bonusRate,
                      pct, partialValue, value);
    PartialValueLower(amount, liquidity.borrowed_amount_wads, liquidity.market_value, bonusRate,
                      pct, partialValue, value, WAD);
    Ok(value)
  }

  /// The other side of `PartialValueBound`, over an abstract scale `u`:
  /// the three roundings down lose less than one unit of the result, one
  /// unit of the partial value times the bonus, and one unit of the ratio
  /// times the value and the bonus.
  lemma PartialValueLower(amount: nat, borrowed: nat, mv: nat, bonus: nat, pct: nat, pv: nat, v: nat, u: nat)
    requires borrowed > 0 && u > 0
    requires amount * u < (pct + 1) * borrowed
    requires mv * pct < (pv + 1) * u
    requires pv * bonus < (v + 1) * u
    ensures mv * amount * bonus * u < ((v + 1) * u * u + bonus * u + mv * bonus) * borrowed
  {
    var mb := mv * bonus;
    var bb := borrowed * bonus;
    assert mv * amount * bonus * u <= mv * pct * bb + mb * borrowed by {
      MulLe(amount * u, (pct + 1) * borrowed, mb);
      assert amount * u * mb == mv * amount * bonus * u;
      assert (pct + 1) * borrowed * mb == mv * pct * bb + mb * borrowed;
    }
    assert mv * pct * bb <= pv * bonus * (u * borrowed) + bonus * u * borrowed by {
      MulLe(mv * pct, (pv + 1) * u, bb);
      assert (pv + 1) * u * bb == pv * bonus * (u * borrowed) + bonus * u * borrowed;
    }
    assert pv * bonus * (u * borrowed) < (v + 1) * u * u * borrowed by {
      MulLtMono(pv * bonus, (v + 1) * u, u * borrowed);
      assert (v + 1) * u * (u * borrowed) == (v + 1) * u * u * borrowed;
    }
    assert ((v + 1) * u * u + bonus * u + mb) * borrowed
           == (v + 1) * u * u * borrowed + bonus * u * borrowed + mb * borrowed;
  }

  /// The arithmetic of `PartialLiquidationValue`: three rounded-down steps
  /// stay below the exact value.
  lemma PartialValueBound(amount: nat, borrowed: nat, mv: nat, bonus: nat, pct: nat, pv: nat, v: nat)
    requires pct * borrowed <= amount * WAD
    requires pv * WAD <= mv * pct
    requires v * WAD <= pv * bonus
    ensures v * borrowed * WAD <= mv * amount * bonus
  {
    MulLe(v * WAD, pv * bonus, WAD * borrowed);
    MulLe(pv * WAD, mv * pct, bonus * borrowed);
    MulLe(pct * borrowed, amount * WAD, mv * bonus);
    assert v * WAD * (WAD * borrowed) == (v * borrowed * WAD) * WAD;
    assert pv * bonus * (WAD * borrowed) == pv * WAD * (bonus * borrowed);
    assert mv * pct * (bonus * borrowed) == pct * borrowed * (mv * bonus);
    assert amount * WAD * (mv * bonus) == (mv * amount * bonus) * WAD;
    MulLtCancel(v * borrowed * WAD, mv * amount * bonus + 1, WAD);
  }

  /// Settling a debt scaled by `pct`, where `pct` is the collateral's share
  /// `cmv` of the liquidation value `lv`, settles no more than that share
  /// of the debt.
  lemma ScaledSettle(amount: nat, pct: nat, settle: nat, lv: nat, cmv: nat)
    requires settle * WAD <= amount * pct
    requires pct * lv <= cmv * WAD
    ensures settle * lv <= amount * cmv
  {
    MulLe(settle * WAD, amount * pct, lv);
    MulLe(pct * lv, cmv * WAD, amount);
    assert settle * WAD * lv == settle * lv * WAD;
    assert amount * pct * lv == amount * (pct * lv);
    assert amount * (cmv * WAD) == amount * cmv * WAD;
    MulLtCancel(settle * lv, amount * cmv + 1, WAD);
  }

  /// The other side of `ScaledSettle`: both roundings down together lose
  /// less than one unit of the settled amount plus `amount`'s share of the
  /// ratio's last digit.
  lemma SettleLower(amount: nat, pct: nat, settle: nat, lv: nat, cmv: nat)
    requires lv > 0
    requires amount * pct < (settle + 1) * WAD
    requires cmv * WAD < (pct + 1) * lv
    ensures amount * cmv * WAD < ((settle + 1) * WAD + amount) * lv
  {
    MulLe(cmv * WAD, (pct + 1) * lv, amount);
    MulLtMono(amount * pct, (settle + 1) * WAD, lv);
    assert cmv * WAD * amount == amount * cmv * WAD;
    assert (pct + 1) * lv * amount == amount * pct * lv + amount * lv;
  }

  /// The other side of `WithdrawShare`: the collateral withdrawn falls short
  /// of the share worth `lv` by less than one token plus the deposit's share
  /// of the ratio's last digit.
  lemma WithdrawLower(deposited: nat, pct: nat, w: nat, lv: nat, cmv: nat)
    requires cmv > 0
    requires deposited * WAD * pct < (w + 1) * WAD * WAD
    requires lv * WAD < (pct + 1) * cmv
    ensures deposited * lv * WAD < ((w + 1) * WAD + deposited) * cmv
  {
    assert deposited * pct * WAD < (w + 1) * WAD * WAD;
    MulLtCancel(deposited * pct, (w + 1) * WAD, WAD);
    MulLe(lv * WAD, (pct + 1) * cmv, deposited);
    MulLtMono(deposited * pct, (w + 1) * WAD, cmv);
    assert lv * WAD * deposited == deposited * lv * WAD;
    assert (pct + 1) * cmv * deposited == deposited * pct * cmv + deposited * cmv;
  }

  /// Withdrawing the deposit's share `pct` of collateral, where `pct` is
  /// the liquidation value `lv` over the collateral's value `cmv`, takes
  /// collateral worth no more than `lv`.
  lemma WithdrawShare(deposited: nat, pct: nat, w: nat, lv: nat, cmv: nat)
    requires w * WAD * WAD <= deposited * WAD * pct
    requires pct * cmv <= lv * WAD
    ensures w * cmv <= deposited * lv
  {
    MulLe(w * WAD * WAD, deposited * WAD * pct, cmv);
    MulLe(pct * cmv, lv * WAD, deposited * WAD);
    assert w * WAD * WAD * cmv == w * cmv * (WAD * WAD);
    assert deposited * WAD * pct * cmv == pct * cmv * (deposited * WAD);
    assert lv * WAD * (deposited * WAD) == deposited * lv * (WAD * WAD);
    MulLtCancel(w * cmv, deposited * lv + 1, WAD * WAD);
  }

  /// The branch of `calculate_liquidation` for a larger borrow: settle
  /// `liquidationAmount`, or as much of it as the collateral covers.
  function PartialLiquidation(bonusRate: Decimal, liquidationAmount: Decimal,
                              liquidity: ObligationLiquidity, collateral: ObligationCollateral)
    : (r: Result<CalculateLiquidationResult>)
    requires liquidationAmount <= liquidity.borrowed_amount_wads
    ensures r.Ok? ==> r.value.settle_amount <= liquidationAmount
    ensures r.Ok? ==> Ceil(r.value.settle_amount) == Ok(r.value.repay_amount)
    ensures r.Ok? ==> r.value.withdraw_amount <= collateral.deposited_amount
    ensures r.Ok? ==> r.value.bonus_rate == bonusRate
    ensures r.Err? ==> r.error == MathOverflow
    // the split is decided by the bonus-inflated value of the amount
    ensures var lv := PartialLiquidationValue(bonusRate, liquidationAmount, liquidity);
            r == if lv.Err? then Err(lv.error) else LiquidationSplit(bonusRate, liquidationAmount, lv.value, collateral)
    // so collateral withdrawn short of the whole deposit (the whole amount
    // is then settled) is worth at most the amount's share of the borrow's
    // value times the bonus rate:
    // `withdraw / deposited * cmv <= amount / borrowed * mv * bonus`
    ensures var lv := PartialLiquidationValue(bonusRate, liquidationAmount, liquidity);
            r.Ok? && lv.Ok? && lv.value <= collateral.market_value ==>
              r.value.withdraw_amount * collateral.market_value * (liquidity.borrowed_amount_wads * WAD)
                <= collateral.deposited_amount * (liquidity.market_value * liquidationAmount * bonusRate)
  {
    var liquidationValue :- PartialLiquidationValue(bonusRate, liquidationAmount, liquidity);
    var split := LiquidationSplit(bonusRate, liquidationAmount, liquidationValue, collateral);
    if split.Ok? && liquidationValue <= collateral.market_value then
      ChainedShare(split.value.withdraw_amount, collateral.market_value, collateral.deposited_amount,
                   liquidationValue, liquidity.borrowed_amount_wads,
                   liquidity.market_value * liquidationAmount * bonusRate);
      split
    else
      split
  }

  /// How a partial liquidation of `amount` with liquidation value `lv`
  /// splits: collateral worth less than `lv` is withdrawn in full and
  /// settles only its share of the amount; otherwise the whole amount is
  /// settled for the collateral's share worth `lv`.
  function LiquidationSplit(bonusRate: Decimal, amount: Decimal, lv: Decimal, collateral: ObligationCollateral)
    : (r: Result<CalculateLiquidationResult>)
    ensures r.Ok? ==> r.value.settle_amount <= amount
    ensures r.Ok? ==> Ceil(r.value.settle_amount) == Ok(r.value.repay_amount)
    ensures r.Ok? ==> r.value.withdraw_amount <= collateral.deposited_amount
    ensures r.Ok? ==> r.value.bonus_rate == bonusRate
    ensures r.Err? ==> r.error == MathOverflow
    ensures r.Ok? && lv > collateral.market_value ==>
              && r.value.withdraw_amount == collateral.deposited_amount
              && r.value.settle_amount * lv <= amount * collateral.market_value
    ensures r.Ok? && lv <= collateral.market_value ==>
              && r.value.settle_amount == amount
              && r.value.withdraw_amount * collateral.market_value <= collateral.deposited_amount * lv
    ensures r.Ok? && lv == collateral.market_value ==> r.value.withdraw_amount == collateral.deposited_amount
    // and neither share falls short by more than the roundings
    ensures r.Ok? && lv > collateral.market_value ==>
              amount * collateral.market_value * WAD < ((r.value.settle_amount + 1) * WAD + amount) * lv
    ensures r.Ok? && lv < collateral.market_value ==>
              collateral.deposited_amount * lv * WAD
                < ((r.value.withdraw_amount + 1) * WAD + collateral.deposited_amount) * collateral.market_value
    // when it succeeds: each ratio and the settled share fit, and the repay
    // amount, the ceiling of the settled amount, fits 64 bits
    ensures lv > collateral.market_value ==>
              (r.Ok? <==> collateral.market_value * WAD <= U192_MAX
                          && var pct := collateral.market_value * WAD / lv;
                             amount * pct <= U192_MAX && amount * pct / WAD <= U64_MAX * WAD)
    ensures lv <= collateral.market_value ==>
              (r.Ok? <==> amount <= U64_MAX * WAD && (lv < collateral.market_value ==> lv * WAD <= U192_MAX))
  {
    if lv > collateral.market_value then
      var repayPct :- DDiv(collateral.market_value, lv);
      RatioFacts(collateral.market_value, lv, repayPct);
      var settle :- DMul(amount, repayPct);
      GrowsNoMore(amount, repayPct, settle);
      ScaledSettle(amount, repayPct, settle, lv, collateral.market_value);
      SettleLower(amount, repayPct, settle, lv, collateral.market_value);
      var repay :- Ceil(settle);
      Ok(CalculateLiquidationResult(settle, repay, collateral.deposited_amount, bonusRate))
    else if lv == collateral.market_value then
      var repay :- Ceil(amount);
      Ok(CalculateLiquidationResult(amount, repay, collateral.deposited_amount, bonusRate))
    else
      var withdrawPct :- DDiv(lv, collateral.market_value);
      RatioFacts(lv, collateral.market_value, withdrawPct);
      var repay :- Ceil(amount);
      var withdraw := ShareOfDeposit(collateral.deposited_amount, withdrawPct);
      WithdrawShare(collateral.deposited_amount, withdrawPct, withdraw, lv, collateral.market_value);
      WithdrawLower(collateral.deposited_amount, withdrawPct, withdraw, lv, collateral.market_value);
      Ok(CalculateLiquidationResult(amount, repay, withdraw, bonusRate))
  }

  /// The arithmetic of the value bound of `PartialLiquidation`.
  lemma ChainedShare(w: nat, cmv: nat, deposited: nat, lv: nat, borrowed: nat, bound: nat)
    requires w * cmv <= deposited * lv
    requires lv * borrowed * WAD <= bound
    ensures w * cmv * (borrowed * WAD) <= deposited * bound
  {
    MulLe(w * cmv, deposited * lv, borrowed * WAD);
    MulLe(lv * borrowed * WAD, bound, deposited);
    assert deposited * lv * (borrowed * WAD) == lv * borrowed * WAD * deposited;
  }

  /// A rounded-down product by a factor of at most one is no larger.
  lemma GrowsNoMore(x: nat, y: nat, p: nat)
    requires y <= WAD
    requires p * WAD <= x * y
    ensures p <= x
  {
    MulLe(y, WAD, x);
    MulLtCancel(p, x + 1, WAD);
  }

  /// `floor(deposited * pct)` for a fraction of at most one: whole
  /// collateral tokens, never more than were deposited. Neither step can
  /// fail for a 64-bit deposit.
  function ShareOfDeposit(deposited: u64, pct: Decimal): (w: u64)
    requires pct <= WAD
    ensures w <= deposited
    ensures w * WAD * WAD <= deposited * WAD * pct < (w + 1) * WAD * WAD
  {
    MulLe(pct, WAD, FromU64(deposited));
    MulLe(deposited, U64_MAX, WAD * WAD);
    var share := DMul(FromU64(deposited), pct).value;
    GrowsNoMore(FromU64(deposited), pct, share);
    DivLe(share, FromU64(deposited), WAD);
    var w := Floor(share).value;
    MulLe(w * WAD, share, WAD);
    MulLe(share + 1, (w + 1) * WAD, WAD);
    w
  }

  // ----- protocol fee and fee redemption -----------------------------------

  /// `calculate_protocol_liquidation_fee`: the protocol's cut of a
  /// liquidation, the fee rate applied to the amount without its bonus,
  /// rounded up, and at least one token.
  function CalculateProtocolLiquidationFee(c: ReserveConfig, amountLiquidated: u64, bonusRate: Decimal)
    : (r: Result<u64>)
    ensures r.Ok? ==> r.value >= 1
    ensures bonusRate == 0 ==> r == Err(MathOverflow)
    ensures r.Err? ==> r.error == MathOverflow
    ensures r.Ok? && c.protocol_liquidation_fee == 0 ==> r.value == 1
    // the fee rate's share of the amount without its bonus, rounded up:
    // never more than one token above that share ...
    ensures r.Ok? ==>
              r.value == 1 || (r.value - 1) * bonusRate < amountLiquidated * FromDecaBps(c.protocol_liquidation_fee)
    // ... and never below it by more than the two roundings
    ensures r.Ok? ==>
              amountLiquidated * FromDecaBps(c.protocol_liquidation_fee) * (WAD * WAD)
                < (r.value * (WAD * WAD) + FromDecaBps(c.protocol_liquidation_fee) + WAD) * bonusRate
  {
    var nonBonus :- DDiv(FromU64(amountLiquidated), bonusRate);
    var fee :- DMul(nonBonus, FromDecaBps(c.protocol_liquidation_fee));
    var rounded :- Ceil(fee);
    ProtocolFeeBounds(amountLiquidated, bonusRate, FromDecaBps(c.protocol_liquidation_fee), nonBonus, fee,
                      rounded, WAD);
    Ok(Max(rounded, 1))
  }

  /// The arithmetic of the protocol's liquidation fee over an abstract
  /// scale `u`: `n` is the amount `a` divided by the bonus rate `b`, `f`
  /// its product with the fee rate `p`, and `k` that rounded up.
  lemma ProtocolFeeBounds(a: nat, b: nat, p: nat, n: nat, f: nat, k: nat, u: nat)
    requires b > 0 && u > 0
    requires n * b <= a * u * u < (n + 1) * b
    requires f * u <= n * p < (f + 1) * u
    requires f <= k * u < f + u
    ensures Max(k, 1) == 1 || (Max(k, 1) - 1) * b < a * p
    ensures a * p * (u * u) < (Max(k, 1) * (u * u) + p + u) * b
  {
    ProtocolFeeUpper(a, b, p, n, f, k, u);
    ProtocolFeeLower(a, b, p, n, f, k, u);
    MulLe(k, Max(k, 1), u * u);
    MulLe(k * (u * u) + p + u, Max(k, 1) * (u * u) + p + u, b);
  }

  /// The upper half of `ProtocolFeeBounds`.
  lemma ProtocolFeeUpper(a: nat, b: nat, p: nat, n: nat, f: nat, k: nat, u: nat)
    requires b > 0 && u > 0
    requires n * b <= a * u * u
    requires f * u <= n * p
    requires k * u < f + u
    ensures k * b < a * p + b
  {
    FeeAboveRounded(n, p, f, k, u);
    assert a * u * u == a * (u * u);
    FeeUnscaledByBonus(a, n, b, p, k, u * u);
  }

  /// The product `n * p`, rounded down to `f` and up to `k`, is above `k`
  /// less one unit.
  lemma FeeAboveRounded(n: nat, p: nat, f: nat, k: nat, u: nat)
    requires u > 0
    requires f * u <= n * p
    requires k * u < f + u
    ensures k * (u * u) < n * p + u * u
  {
    MulLtMono(k * u, f + u, u);
    assert (f + u) * u == f * u + u * u;
    assert k * u * u == k * (u * u);
  }

  /// Dividing the fee's bound back through the bonus rate `b`.
  lemma FeeUnscaledByBonus(a: nat, n: nat, b: nat, p: nat, k: nat, uu: nat)
    requires b > 0 && uu > 0
    requires k * uu < n * p + uu
    requires n * b <= a * uu
    ensures k * b < a * p + b
  {
    MulLtMono(k * uu, n * p + uu, b);
    MulLe(n * b, a * uu, p);
    assert (n * p + uu) * b == n * b * p + uu * b;
    assert k * uu * b == k * b * uu;
    assert a * uu * p + uu * b == (a * p + b) * uu;
    MulLtCancel(k * b, a * p + b, uu);
  }

  /// The lower half of `ProtocolFeeBounds`.
  lemma ProtocolFeeLower(a: nat, b: nat, p: nat, n: nat, f: nat, k: nat, u: nat)
    requires b > 0 && u > 0
    requires a * u * u < (n + 1) * b
    requires n * p < (f + 1) * u
    requires f <= k * u
    ensures a * p * (u * u) < (k * (u * u) + p + u) * b
  {
    FeeBelowRounded(n, p, f, k, u);
    assert a * u * u == a * (u * u);
    FeeScaledByBonus(a, u * u, n, b, p, k * (u * u), u);
  }

  /// The product `n * p`, rounded down to `f` and up to `k`, is below
  /// `k` plus one unit.
  lemma FeeBelowRounded(n: nat, p: nat, f: nat, k: nat, u: nat)
    requires u > 0
    requires n * p < (f + 1) * u
    requires f <= k * u
    ensures n * p < k * (u * u) + u
  {
    MulLe(f, k * u, u);
    assert (f + 1) * u == f * u + u;
    assert k * u * u == k * (u * u);
  }

  /// Multiplying the quotient `n` of `x` by the bonus rate `b` back out.
  lemma FeeScaledByBonus(a: nat, uu: nat, n: nat, b: nat, p: nat, kk: nat, u: nat)
    requires b > 0
    requires a * uu < (n + 1) * b
    requires n * p < kk + u
    ensures a * p * uu < (kk + p + u) * b
  {
    MulLe(a * uu, (n + 1) * b, p);
    assert a * uu * p == a * p * uu;
    MulLtMono(n * p, kk + u, b);
    assert (n + 1) * b * p == n * p * b + p * b;
    assert (kk + p + u) * b == (kk + u) * b + p * b;
  }

  /// Liquidating 105 tokens at a 105% bonus rate leaves 100 tokens without
  /// the bonus: a 1% protocol fee takes one token of them, a 2% fee two.
  lemma ProtocolFeeExamples(c: ReserveConfig)
    ensures c.protocol_liquidation_fee == 10 ==>
              CalculateProtocolLiquidationFee(c, 105, FromPercent(105)) == Ok(1)
    ensures c.protocol_liquidation_fee == 20 ==>
              CalculateProtocolLiquidationFee(c, 105, FromPercent(105)) == Ok(2)
  {
    assert DDiv(FromU64(105), FromPercent(105)) == Ok(100 * WAD);
  }

  /// With a bonus rate of at least one (as every liquidation produces) the
  /// protocol's fee is always defined and never exceeds the amount
  /// liquidated, except for the one-token minimum.
  lemma ProtocolLiquidationFeeAtMostAmount(c: ReserveConfig, amountLiquidated: u64, bonusRate: Decimal)
    requires bonusRate >= WAD
    ensures CalculateProtocolLiquidationFee(c, amountLiquidated, bonusRate).Ok?
    ensures CalculateProtocolLiquidationFee(c, amountLiquidated, bonusRate).value <= Max(amountLiquidated, 1)
  {
    MulLe(amountLiquidated, U64_MAX, WAD * WAD);
    var nonBonus := DDiv(FromU64(amountLiquidated), bonusRate).value;
    var feeRate := FromDecaBps(c.protocol_liquidation_fee);
    MulLe(WAD, bonusRate, nonBonus);
    MulLtCancel(nonBonus, FromU64(amountLiquidated) + 1, WAD);
    MulLe(feeRate, WAD, nonBonus);
    MulLe(nonBonus, U64_MAX * WAD, WAD);
    var fee := DMul(nonBonus, feeRate).value;
    GrowsNoMore(nonBonus, feeRate, fee);
    var rounded := Ceil(fee).value;
    CeilNoMore(fee, amountLiquidated, rounded);
  }

  /// The ceiling of a value no larger than a whole amount is no larger.
  lemma CeilNoMore(x: nat, n: nat, c: nat)
    requires x <= n * WAD && c * WAD < x + WAD
    ensures c <= n
  {
    MulLtCancel(c, n + 1, WAD);
  }

  /// `calculate_redeem_fees`: the protocol may redeem its whole accumulated
  /// fees, limited by the liquidity the reserve holds.
  function CalculateRedeemFees(l: LiquidityState): (r: Result<u64>)
    ensures r.Ok? ==> r.value <= l.available_amount && r.value * WAD <= l.accumulated_protocol_fees_wads
    ensures r.Ok? <==> Floor(l.accumulated_protocol_fees_wads).Ok?
    ensures r.Ok? ==> r.value == Min(l.available_amount, Floor(l.accumulated_protocol_fees_wads).value)
    ensures r.Err? ==> r.error == MathOverflow
  {
    var fees :- Floor(l.accumulated_protocol_fees_wads);
    Ok(Min(l.available_amount, fees))
  }
}
