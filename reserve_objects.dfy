/// The reserve as the program holds it: objects whose operations update
/// their fields in place. Each class reads back as the value it models
/// (`Value()`), and each operation states the new value in terms of the
/// old one, including the partial updates a failure part-way leaves behind
/// (the program relies on the runtime to discard them).
module ReserveObjects {
  import opened FixedPoint
  import opened ReserveConfigs
  import opened Reserves

  /// `ReserveLiquidity`: the reserve's token balances, debt and prices.
  class ReserveLiquidity {
    var mint_pubkey: Pubkey
    var mint_decimals: u8
    var supply_pubkey: Pubkey
    var pyth_oracle_pubkey: Pubkey
    var switchboard_oracle_pubkey: Pubkey
    var available_amount: u64
    var borrowed_amount_wads: Decimal
    var cumulative_borrow_rate_wads: Decimal
    var accumulated_protocol_fees_wads: Decimal
    var market_price: Decimal
    var smoothed_market_price: Decimal

    function Value(): LiquidityState
      reads this
    {
      LiquidityState(mint_pubkey, mint_decimals, supply_pubkey, pyth_oracle_pubkey,
                     switchboard_oracle_pubkey, available_amount, borrowed_amount_wads,
                     cumulative_borrow_rate_wads, accumulated_protocol_fees_wads,
                     market_price, smoothed_market_price)
    }

    /// `ReserveLiquidity::new`: no liquidity, no debt, no fees, and a
    /// cumulative borrow rate of one.
    constructor New(mintPubkey: Pubkey, mintDecimals: u8, supplyPubkey: Pubkey,
                    pythOracle: Pubkey, switchboardOracle: Pubkey,
                    marketPrice: Decimal, smoothedMarketPrice: Decimal)
      ensures Value() == LiquidityState(mintPubkey, mintDecimals, supplyPubkey, pythOracle,
                                        switchboardOracle, 0, 0, WAD, 0,
                                        marketPrice, smoothedMarketPrice)
    {
      mint_pubkey, mint_decimals, supply_pubkey := mintPubkey, mintDecimals, supplyPubkey;
      pyth_oracle_pubkey, switchboard_oracle_pubkey := pythOracle, switchboardOracle;
      available_amount, borrowed_amount_wads := 0, 0;
      cumulative_borrow_rate_wads, accumulated_protocol_fees_wads := WAD, 0;
      market_price, smoothed_market_price := marketPrice, smoothedMarketPrice;
    }

    /// A liquidity object holding the given value.
    constructor FromValue(l: LiquidityState)
      ensures Value() == l
    {
      mint_pubkey, mint_decimals, supply_pubkey := l.mint_pubkey, l.mint_decimals, l.supply_pubkey;
      pyth_oracle_pubkey, switchboard_oracle_pubkey := l.pyth_oracle_pubkey, l.switchboard_oracle_pubkey;
      available_amount, borrowed_amount_wads := l.available_amount, l.borrowed_amount_wads;
      cumulative_borrow_rate_wads := l.cumulative_borrow_rate_wads;
      accumulated_protocol_fees_wads := l.accumulated_protocol_fees_wads;
      market_price, smoothed_market_price := l.market_price, l.smoothed_market_price;
    }

    /// Overwrites every field with the given value (a struct assignment).
    method Assign(l: LiquidityState)
      modifies this
      ensures Value() == l
    {
      mint_pubkey, mint_decimals, supply_pubkey := l.mint_pubkey, l.mint_decimals, l.supply_pubkey;
      pyth_oracle_pubkey, switchboard_oracle_pubkey := l.pyth_oracle_pubkey, l.switchboard_oracle_pubkey;
      available_amount, borrowed_amount_wads := l.available_amount, l.borrowed_amount_wads;
      cumulative_borrow_rate_wads := l.cumulative_borrow_rate_wads;
      accumulated_protocol_fees_wads := l.accumulated_protocol_fees_wads;
      market_price, smoothed_market_price := l.market_price, l.smoothed_market_price;
    }

    /// `deposit`: adds to the available amount, which must stay within
    /// 64 bits.
    method Deposit(liquidityAmount: u64) returns (o: Outcome)
      modifies this
      ensures old(available_amount) + liquidityAmount <= U64_MAX ==>
                o == Pass
                && Value() == old(Value()).(available_amount := old(available_amount) + liquidityAmount)
      ensures old(available_amount) + liquidityAmount > U64_MAX ==>
                o == Fail(MathOverflow) && Value() == old(Value())
    {
      if available_amount + liquidityAmount > U64_MAX {
        return Fail(MathOverflow);
      }
      available_amount := available_amount + liquidityAmount;
      return Pass;
    }

    /// `withdraw`: takes from the available amount; more than is available
    /// is refused.
    method Withdraw(liquidityAmount: u64) returns (o: Outcome)
      modifies this
      ensures liquidityAmount > old(available_amount) ==>
                o == Fail(InsufficientLiquidity) && Value() == old(Value())
      ensures liquidityAmount <= old(available_amount) ==>
                o == Pass
                && Value() == old(Value()).(available_amount := old(available_amount) - liquidityAmount)
    {
      if liquidityAmount > available_amount {
        return Fail(InsufficientLiquidity);
      }
      available_amount := available_amount - liquidityAmount;
      return Pass;
    }

    /// `borrow`: moves the whole tokens of `borrowDecimal` out of the
    /// available amount and adds the exact amount to the debt. If the debt
    /// then overflows, the available amount has already been reduced.
    method Borrow(borrowDecimal: Decimal) returns (o: Outcome)
      modifies this
      ensures Floor(borrowDecimal).Err? ==> o == Fail(MathOverflow) && Value() == old(Value())
      ensures Floor(borrowDecimal).Ok? && Floor(borrowDecimal).value > old(available_amount) ==>
                o == Fail(InsufficientLiquidity) && Value() == old(Value())
      ensures Floor(borrowDecimal).Ok? && Floor(borrowDecimal).value <= old(available_amount) ==>
                var taken := old(Value()).(available_amount := old(available_amount) - Floor(borrowDecimal).value);
                if old(borrowed_amount_wads) + borrowDecimal <= U192_MAX then
                  o == Pass
                  && Value() == taken.(borrowed_amount_wads := old(borrowed_amount_wads) + borrowDecimal)
                else
                  o == Fail(MathOverflow) && Value() == taken
    {
      var whole := Floor(borrowDecimal);
      if whole.Err? {
        return Fail(MathOverflow);
      }
      if whole.value > available_amount {
        return Fail(InsufficientLiquidity);
      }
      available_amount := available_amount - whole.value;
      var borrowed := DAdd(borrowed_amount_wads, borrowDecimal);
      if borrowed.Err? {
        return Fail(MathOverflow);
      }
      borrowed_amount_wads := borrowed.value;
      return Pass;
    }

    /// `repay`: adds the repaid tokens to the available amount and settles
    /// at most the whole debt, so the debt never goes below zero.
    method Repay(repayAmount: u64, settleAmount: Decimal) returns (o: Outcome)
      modifies this
      ensures old(available_amount) + repayAmount > U64_MAX ==>
                o == Fail(MathOverflow) && Value() == old(Value())
      ensures old(available_amount) + repayAmount <= U64_MAX ==>
                o == Pass
                && Value() == old(Value()).(available_amount := old(available_amount) + repayAmount,
                                            borrowed_amount_wads := old(borrowed_amount_wads)
                                                                    - Min(settleAmount, old(borrowed_amount_wads)))
    {
      if available_amount + repayAmount > U64_MAX {
        return Fail(MathOverflow);
      }
      available_amount := available_amount + repayAmount;
      var safeSettle := Min(settleAmount, borrowed_amount_wads);
      borrowed_amount_wads := borrowed_amount_wads - safeSettle;
      return Pass;
    }

    /// `forgive_debt`: writes off part of the debt; more than is owed is an
    /// overflow.
    method ForgiveDebt(liquidityAmount: Decimal) returns (o: Outcome)
      modifies this
      ensures liquidityAmount > old(borrowed_amount_wads) ==>
                o == Fail(MathOverflow) && Value() == old(Value())
      ensures liquidityAmount <= old(borrowed_amount_wads) ==>
                o == Pass
                && Value() == old(Value()).(borrowed_amount_wads := old(borrowed_amount_wads) - liquidityAmount)
    {
      var borrowed := DSub(borrowed_amount_wads, liquidityAmount);
      if borrowed.Err? {
        return Fail(MathOverflow);
      }
      borrowed_amount_wads := borrowed.value;
      return Pass;
    }

    /// `redeem_fees`: pays accumulated protocol fees out of the available
    /// liquidity. If the fees are smaller than the withdrawal, the available
    /// amount has already been reduced when the call fails.
    method RedeemFees(withdrawAmount: u64) returns (o: Outcome)
      modifies this
      ensures withdrawAmount > old(available_amount) ==>
                o == Fail(MathOverflow) && Value() == old(Value())
      ensures withdrawAmount <= old(available_amount) ==>
                var paid := old(Value()).(available_amount := old(available_amount) - withdrawAmount);
                if FromU64(withdrawAmount) <= old(accumulated_protocol_fees_wads) then
                  o == Pass
                  && Value() == paid.(accumulated_protocol_fees_wads :=
                                        old(accumulated_protocol_fees_wads) - FromU64(withdrawAmount))
                else
                  o == Fail(MathOverflow) && Value() == paid
    {
      if withdrawAmount > available_amount {
        return Fail(MathOverflow);
      }
      available_amount := available_amount - withdrawAmount;
      var fees := DSub(accumulated_protocol_fees_wads, FromU64(withdrawAmount));
      if fees.Err? {
        return Fail(MathOverflow);
      }
      accumulated_protocol_fees_wads := fees.value;
      return Pass;
    }

    /// `compound_interest`: the new value is the one `CompoundInterest`
    /// describes. A failure after the cumulative borrow rate has been grown
    /// leaves that one field updated and everything else as it was.
    method CompoundInterest(currentBorrowRate: Rate, slotsElapsed: u64, takeRate: Rate) returns (o: Outcome)
      modifies this
      ensures o.Pass? <==> Reserves.CompoundInterest(old(Value()), currentBorrowRate, slotsElapsed, takeRate).Ok?
      ensures o.Pass? ==>
                Value() == Reserves.CompoundInterest(old(Value()), currentBorrowRate, slotsElapsed, takeRate).value
      ensures o.Fail? ==> o.error == MathOverflow
      ensures o.Fail? ==>
                Value().(cumulative_borrow_rate_wads := old(cumulative_borrow_rate_wads)) == old(Value())
                && (cumulative_borrow_rate_wads == old(cumulative_borrow_rate_wads)
                    || (CompoundFactor(currentBorrowRate, slotsElapsed).Ok?
                        && DMul(old(cumulative_borrow_rate_wads), CompoundFactor(currentBorrowRate, slotsElapsed).value)
                             == Ok(cumulative_borrow_rate_wads)))
    {
      var factor := CompoundFactor(currentBorrowRate, slotsElapsed);
      if factor.Err? {
        return Fail(MathOverflow);
      }
      var cumulative := DMul(cumulative_borrow_rate_wads, factor.value);
      if cumulative.Err? {
        return Fail(MathOverflow);
      }
      cumulative_borrow_rate_wads := cumulative.value;
      var grown := DMul(borrowed_amount_wads, factor.value);
      if grown.Err? {
        return Fail(MathOverflow);
      }
      GrowsByFactor(borrowed_amount_wads, factor.value, grown.value);
      var netNewDebt := grown.value - borrowed_amount_wads;
      var feeShare := DMul(netNewDebt, takeRate);
      if feeShare.Err? {
        return Fail(MathOverflow);
      }
      var fees := DAdd(feeShare.value, accumulated_protocol_fees_wads);
      if fees.Err? {
        return Fail(MathOverflow);
      }
      accumulated_protocol_fees_wads := fees.value;
      borrowed_amount_wads := borrowed_amount_wads + netNewDebt;
      return Pass;
    }
  }

  /// `ReserveCollateral`: the reserve's collateral token mint and supply.
  class ReserveCollateral {
    var mint_pubkey: Pubkey
    var mint_total_supply: u64
    var supply_pubkey: Pubkey

    function Value(): CollateralState
      reads this
    {
      CollateralState(mint_pubkey, mint_total_supply, supply_pubkey)
    }

    /// `ReserveCollateral::new`: nothing minted yet.
    constructor New(mintPubkey: Pubkey, supplyPubkey: Pubkey)
      ensures Value() == CollateralState(mintPubkey, 0, supplyPubkey)
    {
      mint_pubkey, mint_total_supply, supply_pubkey := mintPubkey, 0, supplyPubkey;
    }

    /// A collateral object holding the given value.
    constructor FromValue(c: CollateralState)
      ensures Value() == c
    {
      mint_pubkey, mint_total_supply, supply_pubkey := c.mint_pubkey, c.mint_total_supply, c.supply_pubkey;
    }

    /// Overwrites every field with the given value (a struct assignment).
    method Assign(c: CollateralState)
      modifies this
      ensures Value() == c
    {
      mint_pubkey, mint_total_supply, supply_pubkey := c.mint_pubkey, c.mint_total_supply, c.supply_pubkey;
    }

    /// `mint`: the supply grows, within 64 bits.
    method Mint(collateralAmount: u64) returns (o: Outcome)
      modifies this
      ensures old(mint_total_supply) + collateralAmount <= U64_MAX ==>
                o == Pass
                && Value() == old(Value()).(mint_total_supply := old(mint_total_supply) + collateralAmount)
      ensures old(mint_total_supply) + collateralAmount > U64_MAX ==>
                o == Fail(MathOverflow) && Value() == old(Value())
    {
      if mint_total_supply + collateralAmount > U64_MAX {
        return Fail(MathOverflow);
      }
      mint_total_supply := mint_total_supply + collateralAmount;
      return Pass;
    }

    /// `burn`: the supply shrinks; burning more than exists is an overflow.
    method Burn(collateralAmount: u64) returns (o: Outcome)
      modifies this
      ensures collateralAmount > old(mint_total_supply) ==>
                o == Fail(MathOverflow) && Value() == old(Value())
      ensures collateralAmount <= old(mint_total_supply) ==>
                o == Pass
                && Value() == old(Value()).(mint_total_supply := old(mint_total_supply) - collateralAmount)
    {
      if collateralAmount > mint_total_supply {
        return Fail(MathOverflow);
      }
      mint_total_supply := mint_total_supply - collateralAmount;
      return Pass;
    }
  }

  /// The state `Reserve::init` gives a reserve: the current version, a
  /// stale last update at the current slot, and the given parts.
  function InitialState(currentSlot: u64, lendingMarket: Pubkey, liquidity: LiquidityState,
                        collateral: CollateralState, config: ReserveConfig, rateLimiter: RateLimiter)
    : (s: ReserveState)
    ensures s.version == PROGRAM_VERSION && s.last_update == LastUpdate(currentSlot, true)
    ensures s.liquidity == liquidity && s.collateral == collateral && s.config == config
  {
    ReserveState(PROGRAM_VERSION, LastUpdate(currentSlot, true), lendingMarket, liquidity,
                 collateral, config, rateLimiter)
  }

  /// Collateral tokens minted for `liquidityAmount` at the reserve's
  /// current exchange rate.
  function CollateralForDeposit(s: ReserveState, liquidityAmount: u64): (r: Result<u64>)
    ensures CollateralExchangeRate(s).Ok? ==>
              r == LiquidityToCollateral(CollateralExchangeRate(s).value, liquidityAmount)
    ensures CollateralExchangeRate(s).Err? ==> r.Err?
  {
    var rate :- CollateralExchangeRate(s);
    LiquidityToCollateral(rate, liquidityAmount)
  }

  /// Liquidity returned for `collateralAmount` at the reserve's current
  /// exchange rate.
  function LiquidityForRedeem(s: ReserveState, collateralAmount: u64): (r: Result<u64>)
    ensures CollateralExchangeRate(s).Ok? ==>
              r == CollateralToLiquidity(CollateralExchangeRate(s).value, collateralAmount)
    ensures CollateralExchangeRate(s).Err? ==> r.Err?
  {
    var rate :- CollateralExchangeRate(s);
    CollateralToLiquidity(rate, collateralAmount)
  }

  /// `Reserve`: a lending reserve for one token.
  class Reserve {
    var version: u8
    var last_update: LastUpdate
    var lending_market: Pubkey
    const liquidity: ReserveLiquidity
    const collateral: ReserveCollateral
    var config: ReserveConfig
    var rate_limiter: RateLimiter

    function Value(): ReserveState
      reads this, liquidity, collateral
    {
      ReserveState(version, last_update, lending_market, liquidity.Value(), collateral.Value(),
                   config, rate_limiter)
    }

    /// `Reserve::new`: a fresh reserve initialised as `init` does. The rate
    /// limiter is built from its configuration outside this model and
    /// passed in.
    constructor New(currentSlot: u64, lendingMarket: Pubkey, l: LiquidityState, c: CollateralState,
                    reserveConfig: ReserveConfig, rateLimiter: RateLimiter)
      ensures Value() == InitialState(currentSlot, lendingMarket, l, c, reserveConfig, rateLimiter)
      ensures fresh(liquidity) && fresh(collateral)
    {
      version := PROGRAM_VERSION;
      last_update := LastUpdate(currentSlot, true);
      lending_market := lendingMarket;
      liquidity := new ReserveLiquidity.FromValue(l);
      collateral := new ReserveCollateral.FromValue(c);
      config := reserveConfig;
      rate_limiter := rateLimiter;
    }

    /// `init`: overwrites every part of the reserve.
    method Init(currentSlot: u64, lendingMarket: Pubkey, l: LiquidityState, c: CollateralState,
                reserveConfig: ReserveConfig, rateLimiter: RateLimiter)
      modifies this, liquidity, collateral
      ensures Value() == InitialState(currentSlot, lendingMarket, l, c, reserveConfig, rateLimiter)
    {
      version := PROGRAM_VERSION;
      last_update := LastUpdate(currentSlot, true);
      lending_market := lendingMarket;
      liquidity.Assign(l);
      collateral.Assign(c);
      config := reserveConfig;
      rate_limiter := rateLimiter;
    }

    /// `deposit_liquidity`: adds the liquidity and mints collateral at the
    /// current exchange rate, returning the collateral minted. If minting
    /// overflows, the liquidity has already been added.
    method DepositLiquidity(liquidityAmount: u64) returns (r: Result<u64>)
      modifies liquidity, collateral
      ensures CollateralForDeposit(old(Value()), liquidityAmount).Err? ==>
                r.Err? && Value() == old(Value())
      ensures CollateralForDeposit(old(Value()), liquidityAmount).Ok? ==>
                var minted := CollateralForDeposit(old(Value()), liquidityAmount).value;
                var s := old(Value());
                if s.liquidity.available_amount + liquidityAmount > U64_MAX then
                  r == Err(MathOverflow) && Value() == s
                else
                  var deposited := s.(liquidity := s.liquidity.(available_amount :=
                                                                  s.liquidity.available_amount + liquidityAmount));
                  if s.collateral.mint_total_supply + minted > U64_MAX then
                    r == Err(MathOverflow) && Value() == deposited
                  else
                    r == Ok(minted)
                    && Value() == deposited.(collateral := s.collateral.(mint_total_supply :=
                                                                          s.collateral.mint_total_supply + minted))
    {
      var minted := CollateralForDeposit(Value(), liquidityAmount);
      if minted.Err? {
        return Err(minted.error);
      }
      var o := liquidity.Deposit(liquidityAmount);
      if o.Fail? {
        return Err(o.error);
      }
      o := collateral.Mint(minted.value);
      if o.Fail? {
        return Err(o.error);
      }
      return Ok(minted.value);
    }

    /// `redeem_collateral`: burns the collateral and withdraws the liquidity
    /// it is worth at the current exchange rate, returning that liquidity.
    /// If the reserve lacks the liquidity, the collateral has already been
    /// burnt.
    method RedeemCollateral(collateralAmount: u64) returns (r: Result<u64>)
      modifies liquidity, collateral
      ensures LiquidityForRedeem(old(Value()), collateralAmount).Err? ==>
                r.Err? && Value() == old(Value())
      ensures LiquidityForRedeem(old(Value()), collateralAmount).Ok? ==>
                var returned := LiquidityForRedeem(old(Value()), collateralAmount).value;
                var s := old(Value());
                if collateralAmount > s.collateral.mint_total_supply then
                  r == Err(MathOverflow) && Value() == s
                else
                  var burnt := s.(collateral := s.collateral.(mint_total_supply :=
                                                                s.collateral.mint_total_supply - collateralAmount));
                  if returned > s.liquidity.available_amount then
                    r == Err(InsufficientLiquidity) && Value() == burnt
                  else
                    r == Ok(returned)
                    && Value() == burnt.(liquidity := s.liquidity.(available_amount :=
                                                                     s.liquidity.available_amount - returned))
    {
      var returned := LiquidityForRedeem(Value(), collateralAmount);
      if returned.Err? {
        return Err(returned.error);
      }
      var o := collateral.Burn(collateralAmount);
      if o.Fail? {
        return Err(o.error);
      }
      o := liquidity.Withdraw(returned.value);
      if o.Fail? {
        return Err(o.error);
      }
      return Ok(returned.value);
    }

    /// `accrue_interest`: compounds interest for the slots elapsed since the
    /// last update, at the current borrow rate; a no-op when none have. It
    /// does not move the last update itself.
    method AccrueInterest(currentSlot: u64) returns (o: Outcome)
      modifies liquidity
      ensures o.Pass? <==> AccruedLiquidity(old(Value()), currentSlot).Ok?
      ensures o.Pass? ==> Value() == old(Value()).(liquidity := AccruedLiquidity(old(Value()), currentSlot).value)
      ensures o.Fail? ==> o.error == MathOverflow
      // a failure leaves everything but possibly the cumulative borrow rate as it was
      ensures o.Fail? ==>
                Value().(liquidity := Value().liquidity.(cumulative_borrow_rate_wads :=
                                                           old(liquidity.cumulative_borrow_rate_wads)))
                == old(Value())
      ensures currentSlot == old(last_update.slot) ==> o == Pass && Value() == old(Value())
    {
      var elapsed := SlotsElapsed(last_update, currentSlot);
      if elapsed.Err? {
        return Fail(elapsed.error);
      }
      if elapsed.value > 0 {
        var rate := CurrentBorrowRate(Value());
        if rate.Err? {
          return Fail(rate.error);
        }
        o := liquidity.CompoundInterest(rate.value, elapsed.value, FromPercent(config.protocol_take_rate));
      } else {
        o := Pass;
      }
    }
  }

  // ----- what the liquidity operations preserve -----------------------------

  /// A borrow never lowers the reserve's total supply: it takes only the
  /// whole tokens out of the available amount but records the exact debt.
  /// The new total is representable exactly when the new gross amount is.
  lemma BorrowNeverLowersTotalSupply(l: LiquidityState, borrowDecimal: Decimal)
    requires Floor(borrowDecimal).Ok? && Floor(borrowDecimal).value <= l.available_amount
    requires l.borrowed_amount_wads + borrowDecimal <= U192_MAX
    requires TotalSupply(l).Ok?
    ensures var after := l.(available_amount := l.available_amount - Floor(borrowDecimal).value,
                            borrowed_amount_wads := l.borrowed_amount_wads + borrowDecimal);
            TotalSupply(after).Ok? <==> FromU64(after.available_amount) + after.borrowed_amount_wads <= U192_MAX
    ensures var after := l.(available_amount := l.available_amount - Floor(borrowDecimal).value,
                            borrowed_amount_wads := l.borrowed_amount_wads + borrowDecimal);
            TotalSupply(after).Ok? ==> TotalSupply(after).value >= TotalSupply(l).value
  {
    var whole := Floor(borrowDecimal).value;
    assert FromU64(l.available_amount - whole) == FromU64(l.available_amount) - whole * WAD;
  }

  /// Repaying the ceiling of the settled amount never lowers the total
  /// supply: the repaid tokens cover at least the debt settled.
  lemma RepayNeverLowersTotalSupply(l: LiquidityState, repayAmount: u64, settleAmount: Decimal)
    requires l.available_amount + repayAmount <= U64_MAX
    requires settleAmount <= repayAmount * WAD
    requires TotalSupply(l).Ok?
    ensures var after := l.(available_amount := l.available_amount + repayAmount,
                            borrowed_amount_wads := l.borrowed_amount_wads
                                                    - Min(settleAmount, l.borrowed_amount_wads));
            TotalSupply(after).Ok? ==> TotalSupply(after).value >= TotalSupply(l).value
  {
    assert FromU64(l.available_amount + repayAmount) == FromU64(l.available_amount) + repayAmount * WAD;
  }

  /// Redeeming protocol fees leaves the total supply, and so the collateral
  /// exchange rate, unchanged.
  lemma RedeemFeesKeepsTotalSupply(l: LiquidityState, withdrawAmount: u64)
    requires withdrawAmount <= l.available_amount
    requires FromU64(withdrawAmount) <= l.accumulated_protocol_fees_wads
    requires TotalSupply(l).Ok?
    ensures var after := l.(available_amount := l.available_amount - withdrawAmount,
                            accumulated_protocol_fees_wads := l.accumulated_protocol_fees_wads
                                                              - FromU64(withdrawAmount));
            TotalSupply(after) == TotalSupply(l)
  {
    assert FromU64(l.available_amount - withdrawAmount) == FromU64(l.available_amount) - FromU64(withdrawAmount);
  }

  /// Forgiving debt lowers the total supply by exactly the amount forgiven:
  /// the loss is shared by every collateral holder.
  lemma ForgiveDebtLowersTotalSupply(l: LiquidityState, liquidityAmount: Decimal)
    requires liquidityAmount <= l.borrowed_amount_wads
    requires TotalSupply(l).Ok? && liquidityAmount <= TotalSupply(l).value
    ensures var after := l.(borrowed_amount_wads := l.borrowed_amount_wads - liquidityAmount);
            TotalSupply(after) == Ok(TotalSupply(l).value - liquidityAmount)
  {
  }
}
