/// Off-chain helpers that bring a reserve or an obligation up to date
/// without sending a transaction: the price comes from a map of oracle
/// prices fetched beforehand, interest is accrued to a given slot, and an
/// obligation's values are recomputed from a map of reserves.
module Offchain {
  import opened FixedPoint
  import opened ReserveConfigs
  import opened Reserves
  import opened Obligations
  import opened ReserveObjects

  /// The key that marks an oracle as not configured.
  const NULL_PUBKEY: Pubkey := [11, 193, 238, 216, 208, 116, 241, 195, 55, 212, 76, 22, 75, 202, 40, 216,
                                76, 206, 27, 169, 138, 64, 177, 28, 19, 90, 156, 0, 0, 0, 0, 0]

  /// The error code returned when a deposit's reserve is not in the map.
  const MISSING_DEPOSIT_RESERVE: nat := 35

  // ----- reserves --------------------------------------------------------

  predicate HasPrice(prices: map<Pubkey, Option<Decimal>>, key: Pubkey)
  {
    key in prices && prices[key].Some?
  }

  /// The price `offchain_refresh_reserve` uses: the Pyth price when the map
  /// has one, otherwise the Switchboard price. A price found under the null
  /// key is discarded, and a discarded Pyth price is not replaced by the
  /// Switchboard one.
  function SelectPrice(prices: map<Pubkey, Option<Decimal>>, pyth: Pubkey, switchboard: Pubkey)
    : (p: Option<Decimal>)
    ensures p.Some? <==>
              (HasPrice(prices, pyth) && pyth != NULL_PUBKEY)
              || (!HasPrice(prices, pyth) && HasPrice(prices, switchboard) && switchboard != NULL_PUBKEY)
    ensures p.Some? && HasPrice(prices, pyth) ==> p.value == prices[pyth].value
    ensures p.Some? && !HasPrice(prices, pyth) ==> p.value == prices[switchboard].value
  {
    if HasPrice(prices, pyth) then
      if pyth != NULL_PUBKEY then Some(prices[pyth].value) else None
    else if HasPrice(prices, switchboard) then
      if switchboard != NULL_PUBKEY then Some(prices[switchboard].value) else None
    else
      None
  }

  /// The reserve after `offchain_refresh_reserve_interest` at `slot`:
  /// interest accrued, and marked fresh as of that slot.
  function RefreshedInterest(r: ReserveState, slot: u64): (s: Result<ReserveState>)
    ensures s.Ok? <==> AccruedLiquidity(r, slot).Ok?
    ensures s.Err? ==> s.error == MathOverflow
    ensures slot < r.last_update.slot ==> s.Err?
    ensures s.Ok? ==> s.value.last_update == LastUpdate(slot, false)
    ensures s.Ok? ==> s.value.liquidity == AccruedLiquidity(r, slot).value
    ensures s.Ok? ==> s.value.(liquidity := r.liquidity, last_update := r.last_update) == r
    ensures s.Ok? ==> s.value.liquidity.cumulative_borrow_rate_wads >= r.liquidity.cumulative_borrow_rate_wads
    ensures s.Ok? ==> s.value.liquidity.borrowed_amount_wads >= r.liquidity.borrowed_amount_wads
  {
    var liquidity := AccruedLiquidity(r, slot);
    if liquidity.Err? then Err(MathOverflow)
    else Ok(r.(liquidity := liquidity.value, last_update := LastUpdate(slot, false)))
  }

  /// Refreshing twice at the same slot is refreshing once.
  lemma RefreshInterestIdempotent(r: ReserveState, slot: u64)
    requires RefreshedInterest(r, slot).Ok?
    ensures RefreshedInterest(RefreshedInterest(r, slot).value, slot) == RefreshedInterest(r, slot)
  {
  }

  /// The reserve after `offchain_refresh_reserve`: the selected price set
  /// as the market price, then refreshed as above; no price is an error.
  function RefreshedReserve(r: ReserveState, slot: u64, prices: map<Pubkey, Option<Decimal>>)
    : (s: Result<ReserveState>)
    ensures SelectPrice(prices, r.liquidity.pyth_oracle_pubkey, r.liquidity.switchboard_oracle_pubkey).None? ==>
              s == Err(NoPrice)
    ensures s.Err? ==> s.error == NoPrice || s.error == MathOverflow
    ensures s.Ok? ==>
              var price := SelectPrice(prices, r.liquidity.pyth_oracle_pubkey, r.liquidity.switchboard_oracle_pubkey);
              price.Some? && s.value.liquidity.market_price == price.value
              && s.value.last_update == LastUpdate(slot, false)
    // with a price, the reserve priced at it is refreshed as above
    ensures var price := SelectPrice(prices, r.liquidity.pyth_oracle_pubkey, r.liquidity.switchboard_oracle_pubkey);
            price.Some? ==> s == RefreshedInterest(r.(liquidity := r.liquidity.(market_price := price.value)), slot)
  {
    var price := SelectPrice(prices, r.liquidity.pyth_oracle_pubkey, r.liquidity.switchboard_oracle_pubkey);
    if price.None? then Err(NoPrice)
    else
      var priced := r.(liquidity := r.liquidity.(market_price := price.value));
      RefreshedInterest(priced, slot)
  }

  /// Refreshing twice with the same prices at the same slot is refreshing
  /// once: the oracles do not change, so the same price is selected, and no
  /// further slot has elapsed.
  lemma RefreshReserveIdempotent(r: ReserveState, slot: u64, prices: map<Pubkey, Option<Decimal>>)
    requires RefreshedReserve(r, slot, prices).Ok?
    ensures RefreshedReserve(RefreshedReserve(r, slot, prices).value, slot, prices) == RefreshedReserve(r, slot, prices)
  {
    var s := RefreshedReserve(r, slot, prices).value;
    var price := SelectPrice(prices, r.liquidity.pyth_oracle_pubkey, r.liquidity.switchboard_oracle_pubkey);
    assert s.liquidity.pyth_oracle_pubkey == r.liquidity.pyth_oracle_pubkey;
    assert s.liquidity.switchboard_oracle_pubkey == r.liquidity.switchboard_oracle_pubkey;
    assert s.(liquidity := s.liquidity.(market_price := price.value)) == s;
  }

  /// `offchain_refresh_reserve_interest`: accrues interest to `slot` and
  /// marks the reserve fresh. A failure leaves the reserve as it was, but
  /// for the cumulative borrow rate a failed accrual may already have
  /// compounded.
  method RefreshReserveInterest(reserve: Reserve, slot: u64) returns (o: Outcome)
    modifies reserve, reserve.liquidity
    ensures o.Pass? <==> RefreshedInterest(old(reserve.Value()), slot).Ok?
    ensures o.Pass? ==> reserve.Value() == RefreshedInterest(old(reserve.Value()), slot).value
    ensures o.Fail? ==> o.error == MathOverflow && reserve.last_update == old(reserve.last_update)
    ensures o.Fail? ==>
              reserve.Value() == old(reserve.Value()).(liquidity := old(reserve.Value()).liquidity.(
                                   cumulative_borrow_rate_wads := reserve.liquidity.cumulative_borrow_rate_wads))
  {
    o := reserve.AccrueInterest(slot);
    if o.Fail? {
      return;
    }
    reserve.last_update := LastUpdate(slot, false);
  }

  /// `offchain_refresh_reserve`: sets the market price from the price map,
  /// then accrues interest and marks the reserve fresh. With no usable
  /// price nothing changes; if accrual fails the new price stays.
  method RefreshReserve(reserve: Reserve, slot: u64, prices: map<Pubkey, Option<Decimal>>) returns (o: Outcome)
    modifies reserve, reserve.liquidity
    ensures o.Pass? <==> RefreshedReserve(old(reserve.Value()), slot, prices).Ok?
    ensures o.Pass? ==> reserve.Value() == RefreshedReserve(old(reserve.Value()), slot, prices).value
    ensures o.Fail? ==> o.error == RefreshedReserve(old(reserve.Value()), slot, prices).error
    ensures o == Fail(NoPrice) ==> reserve.Value() == old(reserve.Value())
    ensures o.Fail? ==> reserve.last_update == old(reserve.last_update)
    // a failed accrual leaves the new price set, and the reserve otherwise
    // as it was but for the cumulative borrow rate
    ensures o.Fail? && o != Fail(NoPrice) ==>
              var price := SelectPrice(prices, old(reserve.liquidity.pyth_oracle_pubkey),
                                       old(reserve.liquidity.switchboard_oracle_pubkey));
              && price.Some?
              && reserve.Value() == old(reserve.Value()).(liquidity := old(reserve.Value()).liquidity.(
                                      market_price := price.value,
                                      cumulative_borrow_rate_wads := reserve.liquidity.cumulative_borrow_rate_wads))
  {
    var price := SelectPrice(prices, reserve.liquidity.pyth_oracle_pubkey,
                             reserve.liquidity.switchboard_oracle_pubkey);
    if price.None? {
      return Fail(NoPrice);
    }
    reserve.liquidity.market_price := price.value;
    o := reserve.AccrueInterest(slot);
    if o.Fail? {
      return;
    }
    reserve.last_update := LastUpdate(slot, false);
  }

  // ----- obligations -----------------------------------------------------

  /// The running totals of the deposits loop.
  datatype DepositTotals = DepositTotals(deposited: Decimal, unhealthy: Decimal, superUnhealthy: Decimal)

  /// One iteration of the deposits loop: the deposit valued at its
  /// reserve's market price, and added to the totals weighted by the
  /// reserve's liquidation threshold and maximum liquidation threshold.
  function RefreshDeposit(c: ObligationCollateral, reserves: map<Pubkey, ReserveState>, t: DepositTotals)
    : (r: Result<(ObligationCollateral, DepositTotals)>)
    ensures c.deposit_reserve !in reserves ==> r == Err(Custom(MISSING_DEPOSIT_RESERVE))
    // for a known reserve: the first failure of the exchange rate, the
    // conversion or the valuation, else success exactly when the three
    // sums fit
    ensures c.deposit_reserve in reserves ==>
              var reserve := reserves[c.deposit_reserve];
              var rate := CollateralExchangeRate(reserve);
              var amount := if rate.Err? then Err(rate.error)
                            else DecimalCollateralToLiquidity(rate.value, FromU64(c.deposited_amount));
              var value := if amount.Err? then Err(amount.error) else MarketValue(reserve, amount.value);
              && (value.Err? ==> r == Err(value.error))
              && (value.Ok? ==> (r.Ok? <==> DepositFits(t, value.value, reserve.config)))
              && (value.Ok? && r.Err? ==> r.error == MathOverflow)
    ensures r.Ok? ==> r.value.0.(market_value := c.market_value) == c
    ensures r.Ok? ==> DepositRevalued(c, r.value.0, reserves)
    // the deposit is valued at its reserve's market price
    ensures r.Ok? ==>
              var reserve := reserves[c.deposit_reserve];
              && CollateralExchangeRate(reserve).Ok?
              && var liquidityAmount := DecimalCollateralToLiquidity(CollateralExchangeRate(reserve).value,
                                                                     FromU64(c.deposited_amount));
                 && liquidityAmount.Ok?
                 && MarketValue(reserve, liquidityAmount.value) == Ok(r.value.0.market_value)
    // and added to the totals, weighted by the two thresholds
    ensures r.Ok? ==> r.value.1.deposited == t.deposited + r.value.0.market_value
    ensures r.Ok? ==>
              r.value.1.unhealthy == t.unhealthy + ThresholdPart(r.value.0, reserves, false)
              && r.value.1.superUnhealthy == t.superUnhealthy + ThresholdPart(r.value.0, reserves, true)
  {
    if c.deposit_reserve !in reserves then Err(Custom(MISSING_DEPOSIT_RESERVE))
    else
      var reserve := reserves[c.deposit_reserve];
      var rate :- CollateralExchangeRate(reserve);
      var liquidityAmount :- DecimalCollateralToLiquidity(rate, FromU64(c.deposited_amount));
      var marketValue :- MarketValue(reserve, liquidityAmount);
      var deposited :- DAdd(t.deposited, marketValue);
      var unhealthyPart :- DMul(marketValue, FromPercent(reserve.config.liquidation_threshold));
      var unhealthy :- DAdd(t.unhealthy, unhealthyPart);
      var superPart :- DMul(marketValue, FromPercent(reserve.config.max_liquidation_threshold));
      var superUnhealthy :- DAdd(t.superUnhealthy, superPart);
      Ok((c.(market_value := marketValue), DepositTotals(deposited, unhealthy, superUnhealthy)))
  }

  /// A deposit of value `v` can be added to the totals: the value and its
  /// two threshold-weighted parts fit, and so do the three sums.
  predicate DepositFits(t: DepositTotals, v: Decimal, config: ReserveConfig)
  {
    var lo, hi := FromPercent(config.liquidation_threshold), FromPercent(config.max_liquidation_threshold);
    && t.deposited + v <= U192_MAX
    && v * lo <= U192_MAX && t.unhealthy + v * lo / WAD <= U192_MAX
    && v * hi <= U192_MAX && t.superUnhealthy + v * hi / WAD <= U192_MAX
  }

  /// The first `n` iterations of the deposits loop, from zero totals.
  function RefreshDeposits(cs: seq<ObligationCollateral>, reserves: map<Pubkey, ReserveState>, n: nat)
    : (r: Result<(seq<ObligationCollateral>, DepositTotals)>)
    requires n <= |cs|
    ensures r.Ok? ==> |r.value.0| == n
  {
    if n == 0 then Ok(([], DepositTotals(0, 0, 0)))
    else
      var prev :- RefreshDeposits(cs, reserves, n - 1);
      var step :- RefreshDeposit(cs[n - 1], reserves, prev.1);
      Ok((prev.0 + [step.0], step.1))
  }

  /// Once an iteration fails, the loop has failed with that error.
  lemma {:induction false} DepositsErrorPersists(cs: seq<ObligationCollateral>, reserves: map<Pubkey, ReserveState>,
                                                 n: nat, m: nat)
    requires n <= m <= |cs|
    requires RefreshDeposits(cs, reserves, n).Err?
    ensures RefreshDeposits(cs, reserves, m) == RefreshDeposits(cs, reserves, n)
    decreases m
  {
    if m > n {
      DepositsErrorPersists(cs, reserves, n, m - 1);
    }
  }

  /// The sum of the market values of the deposits.
  function DepositsValue(cs: seq<ObligationCollateral>): nat
  {
    if |cs| == 0 then 0 else DepositsValue(cs[..|cs| - 1]) + cs[|cs| - 1].market_value
  }

  /// The liquidation threshold, or with `max` the maximum liquidation
  /// threshold, of a reserve.
  function Threshold(c: ReserveConfig, max: bool): (p: u8)
    ensures p == c.liquidation_threshold || p == c.max_liquidation_threshold
  {
    if max then c.max_liquidation_threshold else c.liquidation_threshold
  }

  /// A deposit's market value weighted by its reserve's threshold, rounded
  /// down; nothing for a deposit whose reserve is unknown.
  function ThresholdPart(c: ObligationCollateral, reserves: map<Pubkey, ReserveState>, max: bool): (v: nat)
    ensures v <= c.market_value * 255 / 100
  {
    if c.deposit_reserve in reserves then
      var pct := FromPercent(Threshold(reserves[c.deposit_reserve].config, max));
      ThresholdPartBound(c.market_value, pct);
      c.market_value * pct / WAD
    else 0
  }

  /// The arithmetic of `ThresholdPart`'s bound.
  lemma ThresholdPartBound(v: nat, pct: nat)
    requires pct <= 255 * PERCENT_SCALER
    ensures v * pct / WAD <= v * 255 / 100
  {
    MulLe(pct, 255 * PERCENT_SCALER, v);
    DivLe(v * pct, v * (255 * PERCENT_SCALER), WAD);
    assert v * (255 * PERCENT_SCALER) / WAD == v * 255 / 100;
  }

  /// The unhealthy borrow value (or, with `max`, the super-unhealthy one)
  /// of a list of deposits: the sum of their threshold-weighted values.
  function ThresholdValue(cs: seq<ObligationCollateral>, reserves: map<Pubkey, ReserveState>, max: bool): nat
  {
    if |cs| == 0 then 0
    else ThresholdValue(cs[..|cs| - 1], reserves, max) + ThresholdPart(cs[|cs| - 1], reserves, max)
  }

  /// With ordered thresholds the unhealthy value of a list of deposits is
  /// at most its super-unhealthy value, which is at most its total value.
  lemma {:induction false} ThresholdValuesOrdered(cs: seq<ObligationCollateral>, reserves: map<Pubkey, ReserveState>)
    requires forall k :: k in reserves ==> ThresholdsOrdered(reserves[k].config)
    ensures ThresholdValue(cs, reserves, false) <= ThresholdValue(cs, reserves, true) <= DepositsValue(cs)
  {
    if |cs| > 0 {
      ThresholdValuesOrdered(cs[..|cs| - 1], reserves);
      var c := cs[|cs| - 1];
      if c.deposit_reserve in reserves {
        var config := reserves[c.deposit_reserve].config;
        PartsOrdered(c.market_value, FromPercent(config.liquidation_threshold),
                     FromPercent(config.max_liquidation_threshold));
      }
    }
  }

  /// The arithmetic of `ThresholdValuesOrdered`'s step: weighting a value
  /// by two ordered fractions of at most one, rounding down.
  lemma PartsOrdered(v: nat, lo: nat, hi: nat)
    requires lo <= hi <= WAD
    ensures v * lo / WAD <= v * hi / WAD <= v
  {
    MulLe(lo, hi, v);
    MulLe(hi, WAD, v);
    DivLe(v * lo, v * hi, WAD);
    DivLe(v * hi, v * WAD, WAD);
    assert lo * v == v * lo && hi * v == v * hi && WAD * v == v * WAD;
  }

  /// A configuration whose thresholds are ordered, as every valid one is.
  predicate ThresholdsOrdered(c: ReserveConfig)
  {
    c.liquidation_threshold <= c.max_liquidation_threshold <= 100
  }

  /// The loop after `n + 1` iterations, given the first `n` succeeded.
  lemma DepositsStep(cs: seq<ObligationCollateral>, reserves: map<Pubkey, ReserveState>, n: nat)
    requires n < |cs|
    requires RefreshDeposits(cs, reserves, n).Ok?
    ensures var prev := RefreshDeposits(cs, reserves, n).value;
            var step := RefreshDeposit(cs[n], reserves, prev.1);
            RefreshDeposits(cs, reserves, n + 1)
            == if step.Err? then Err(step.error) else Ok((prev.0 + [step.value.0], step.value.1))
  {
  }

  /// The deposited value is the sum of the refreshed deposits' market
  /// values, and the unhealthy and super-unhealthy values the sums of
  /// those weighted by each reserve's two thresholds.
  lemma {:induction false} DepositsValueTotal(cs: seq<ObligationCollateral>, reserves: map<Pubkey, ReserveState>,
                                              n: nat)
    requires n <= |cs|
    requires RefreshDeposits(cs, reserves, n).Ok?
    ensures var r := RefreshDeposits(cs, reserves, n).value;
            && r.1.deposited == DepositsValue(r.0)
            && r.1.unhealthy == ThresholdValue(r.0, reserves, false)
            && r.1.superUnhealthy == ThresholdValue(r.0, reserves, true)
  {
    if n > 0 {
      DepositsValueTotal(cs, reserves, n - 1);
      DepositsStep(cs, reserves, n - 1);
      var prev := RefreshDeposits(cs, reserves, n - 1).value;
      var step := RefreshDeposit(cs[n - 1], reserves, prev.1).value;
      DepositSumsAppend(prev.0, step.0, reserves);
    }
  }

  /// Appending a deposit adds its value and its two threshold parts to the
  /// three sums.
  lemma DepositSumsAppend(cs: seq<ObligationCollateral>, c: ObligationCollateral,
                          reserves: map<Pubkey, ReserveState>)
    ensures DepositsValue(cs + [c]) == DepositsValue(cs) + c.market_value
    ensures ThresholdValue(cs + [c], reserves, false) == ThresholdValue(cs, reserves, false) + ThresholdPart(c, reserves, false)
    ensures ThresholdValue(cs + [c], reserves, true) == ThresholdValue(cs, reserves, true) + ThresholdPart(c, reserves, true)
  {
    assert (cs + [c])[..|cs|] == cs;
  }

  /// `after` is the deposit `before` revalued: the same reserve and
  /// amount, valued at the reserve's market price after converting the
  /// collateral to liquidity at the reserve's exchange rate.
  predicate DepositRevalued(before: ObligationCollateral, after: ObligationCollateral,
                            reserves: map<Pubkey, ReserveState>)
  {
    && after.(market_value := before.market_value) == before
    && before.deposit_reserve in reserves
    && var reserve := reserves[before.deposit_reserve];
       var rate := CollateralExchangeRate(reserve);
       && rate.Ok?
       && var amount := DecimalCollateralToLiquidity(rate.value, FromU64(before.deposited_amount));
          && amount.Ok?
          && MarketValue(reserve, amount.value) == Ok(after.market_value)
  }

  /// Each refreshed deposit keeps its reserve and its amount, and is valued
  /// at its reserve's market price.
  lemma {:induction false} DepositsKept(cs: seq<ObligationCollateral>, reserves: map<Pubkey, ReserveState>, n: nat)
    requires n <= |cs|
    requires RefreshDeposits(cs, reserves, n).Ok?
    ensures var r := RefreshDeposits(cs, reserves, n).value;
            forall i :: 0 <= i < n ==> r.0[i].(market_value := cs[i].market_value) == cs[i]
    ensures var r := RefreshDeposits(cs, reserves, n).value;
            forall i :: 0 <= i < n ==> DepositRevalued(cs[i], r.0[i], reserves)
  {
    if n > 0 {
      DepositsKept(cs, reserves, n - 1);
      DepositsStep(cs, reserves, n - 1);
      var prev := RefreshDeposits(cs, reserves, n - 1).value;
      var step := RefreshDeposit(cs[n - 1], reserves, prev.1).value;
      var r := RefreshDeposits(cs, reserves, n).value;
      assert r.0 == prev.0 + [step.0];
      forall i | 0 <= i < n
        ensures r.0[i].(market_value := cs[i].market_value) == cs[i]
        ensures DepositRevalued(cs[i], r.0[i], reserves)
      {
        if i < n - 1 {
          assert r.0[i] == prev.0[i];
        }
      }
    }
  }

  /// When every reserve's thresholds are ordered, the unhealthy value is
  /// at most the super-unhealthy value, which is at most the deposited
  /// value.
  lemma {:induction false} DepositsThresholdsOrdered(cs: seq<ObligationCollateral>,
                                                     reserves: map<Pubkey, ReserveState>, n: nat)
    requires n <= |cs|
    requires RefreshDeposits(cs, reserves, n).Ok?
    requires forall k :: k in reserves ==> ThresholdsOrdered(reserves[k].config)
    ensures var r := RefreshDeposits(cs, reserves, n).value;
            r.1.unhealthy <= r.1.superUnhealthy <= r.1.deposited
  {
    DepositsValueTotal(cs, reserves, n);
    ThresholdValuesOrdered(RefreshDeposits(cs, reserves, n).value.0, reserves);
  }

  /// One iteration of the borrows loop: the borrow brought up to its
  /// reserve's cumulative borrow rate, valued at the reserve's market
  /// price, and added to the borrowed value weighted by the reserve's
  /// borrow weight.
  function RefreshBorrow(b: ObligationLiquidity, reserves: map<Pubkey, ReserveState>, borrowedValue: Decimal)
    : (r: Result<(ObligationLiquidity, Decimal)>)
    requires b.borrow_reserve in reserves
    ensures r.Ok? ==> r.value.0.borrow_reserve == b.borrow_reserve
    ensures r.Ok? ==> BorrowRefreshed(b, r.value.0, reserves)
    ensures r.Ok? ==>
              r.value.0.cumulative_borrow_rate_wads == reserves[b.borrow_reserve].liquidity.cumulative_borrow_rate_wads
    ensures r.Ok? ==> r.value.0.borrowed_amount_wads >= b.borrowed_amount_wads
    // the borrow accrues to its reserve's cumulative rate and is valued at
    // the reserve's market price
    ensures r.Ok? ==>
              var reserve := reserves[b.borrow_reserve];
              && AccrueBorrowInterest(b, reserve.liquidity.cumulative_borrow_rate_wads)
                 == Ok(r.value.0.(market_value := b.market_value))
              && MarketValue(reserve, r.value.0.borrowed_amount_wads) == Ok(r.value.0.market_value)
    // and added to the borrowed value weighted by the reserve's borrow weight
    ensures r.Ok? ==> r.value.1 == borrowedValue + BorrowPart(r.value.0, reserves)
    ensures r.Ok? ==> r.value.1 >= borrowedValue + r.value.0.market_value
    // the first failure of the accrual or the valuation, else success
    // exactly when the weighted value and the sum fit
    ensures var reserve := reserves[b.borrow_reserve];
            var accrued := AccrueBorrowInterest(b, reserve.liquidity.cumulative_borrow_rate_wads);
            var value := if accrued.Err? then Err(accrued.error)
                         else MarketValue(reserve, accrued.value.borrowed_amount_wads);
            && (value.Err? ==> r == Err(value.error))
            && (value.Ok? ==>
                  (r.Ok? <==> value.value * BorrowWeight(reserve.config) <= U192_MAX
                              && borrowedValue + value.value * BorrowWeight(reserve.config) / WAD <= U192_MAX))
            && (value.Ok? && r.Err? ==> r.error == MathOverflow)
  {
    var reserve := reserves[b.borrow_reserve];
    var accrued :- AccrueBorrowInterest(b, reserve.liquidity.cumulative_borrow_rate_wads);
    var marketValue :- MarketValue(reserve, accrued.borrowed_amount_wads);
    var weighted :- DMul(marketValue, BorrowWeight(reserve.config));
    GrowsByFactor(marketValue, BorrowWeight(reserve.config), weighted);
    var total :- DAdd(borrowedValue, weighted);
    Ok((accrued.(market_value := marketValue), total))
  }

  /// A borrow's market value weighted by its reserve's borrow weight,
  /// rounded down; nothing for a borrow whose reserve is unknown.
  function BorrowPart(b: ObligationLiquidity, reserves: map<Pubkey, ReserveState>): (v: nat)
    ensures b.borrow_reserve in reserves ==> v >= b.market_value
    ensures b.borrow_reserve in reserves && reserves[b.borrow_reserve].config.added_borrow_weight_bps == 0 ==>
              v == b.market_value
  {
    if b.borrow_reserve in reserves then
      var w := BorrowWeight(reserves[b.borrow_reserve].config);
      MulLe(WAD, w, b.market_value);
      DivLe(b.market_value * WAD, b.market_value * w, WAD);
      b.market_value * w / WAD
    else 0
  }

  /// The weighted borrowed value of a list of borrows: the sum of their
  /// weighted values.
  function WeightedBorrowsValue(bs: seq<ObligationLiquidity>, reserves: map<Pubkey, ReserveState>): nat
  {
    if |bs| == 0 then 0 else WeightedBorrowsValue(bs[..|bs| - 1], reserves) + BorrowPart(bs[|bs| - 1], reserves)
  }

  /// The weighted borrowed value is at least the plain sum, and equal to it
  /// when no reserve adds borrow weight.
  lemma {:induction false} WeightedBorrowsAtLeast(bs: seq<ObligationLiquidity>, reserves: map<Pubkey, ReserveState>)
    requires BorrowReservesKnown(bs, reserves)
    ensures WeightedBorrowsValue(bs, reserves) >= BorrowsValue(bs)
    ensures (forall k :: k in reserves ==> reserves[k].config.added_borrow_weight_bps == 0) ==>
              WeightedBorrowsValue(bs, reserves) == BorrowsValue(bs)
  {
    if |bs| > 0 {
      WeightedBorrowsAtLeast(bs[..|bs| - 1], reserves);
      assert bs[|bs| - 1].borrow_reserve in reserves;
    }
  }

  predicate BorrowReservesKnown(bs: seq<ObligationLiquidity>, reserves: map<Pubkey, ReserveState>)
  {
    forall i :: 0 <= i < |bs| ==> bs[i].borrow_reserve in reserves
  }

  /// The first `n` iterations of the borrows loop, from a zero borrowed
  /// value.
  function RefreshBorrows(bs: seq<ObligationLiquidity>, reserves: map<Pubkey, ReserveState>, n: nat)
    : (r: Result<(seq<ObligationLiquidity>, Decimal)>)
    requires n <= |bs| && BorrowReservesKnown(bs, reserves)
    ensures r.Ok? ==> |r.value.0| == n
  {
    if n == 0 then Ok(([], 0))
    else
      var prev :- RefreshBorrows(bs, reserves, n - 1);
      var step :- RefreshBorrow(bs[n - 1], reserves, prev.1);
      Ok((prev.0 + [step.0], step.1))
  }

  lemma {:induction false} BorrowsErrorPersists(bs: seq<ObligationLiquidity>, reserves: map<Pubkey, ReserveState>,
                                                n: nat, m: nat)
    requires n <= m <= |bs| && BorrowReservesKnown(bs, reserves)
    requires RefreshBorrows(bs, reserves, n).Err?
    ensures RefreshBorrows(bs, reserves, m) == RefreshBorrows(bs, reserves, n)
    decreases m
  {
    if m > n {
      BorrowsErrorPersists(bs, reserves, n, m - 1);
    }
  }

  /// The sum of the market values of the borrows.
  function BorrowsValue(bs: seq<ObligationLiquidity>): nat
  {
    if |bs| == 0 then 0 else BorrowsValue(bs[..|bs| - 1]) + bs[|bs| - 1].market_value
  }

  /// The loop after `n + 1` iterations, given the first `n` succeeded.
  lemma BorrowsStep(bs: seq<ObligationLiquidity>, reserves: map<Pubkey, ReserveState>, n: nat)
    requires n < |bs| && BorrowReservesKnown(bs, reserves)
    requires RefreshBorrows(bs, reserves, n).Ok?
    ensures var prev := RefreshBorrows(bs, reserves, n).value;
            var step := RefreshBorrow(bs[n], reserves, prev.1);
            RefreshBorrows(bs, reserves, n + 1)
            == if step.Err? then Err(step.error) else Ok((prev.0 + [step.value.0], step.value.1))
  {
  }

  /// The borrowed value is the sum of the refreshed borrows' market values
  /// weighted by their reserves' borrow weights.
  lemma {:induction false} BorrowsValueTotal(bs: seq<ObligationLiquidity>, reserves: map<Pubkey, ReserveState>,
                                             n: nat)
    requires n <= |bs| && BorrowReservesKnown(bs, reserves)
    requires RefreshBorrows(bs, reserves, n).Ok?
    ensures var r := RefreshBorrows(bs, reserves, n).value;
            r.1 == WeightedBorrowsValue(r.0, reserves)
  {
    if n > 0 {
      BorrowsValueTotal(bs, reserves, n - 1);
      BorrowsStep(bs, reserves, n - 1);
      var prev := RefreshBorrows(bs, reserves, n - 1).value;
      var step := RefreshBorrow(bs[n - 1], reserves, prev.1).value;
      assert (prev.0 + [step.0])[..n - 1] == prev.0;
    }
  }

  /// The refreshed borrows keep their reserves, so all of them are known.
  lemma BorrowsReservesStayKnown(bs: seq<ObligationLiquidity>, reserves: map<Pubkey, ReserveState>, n: nat)
    requires n <= |bs| && BorrowReservesKnown(bs, reserves)
    requires RefreshBorrows(bs, reserves, n).Ok?
    ensures BorrowReservesKnown(RefreshBorrows(bs, reserves, n).value.0, reserves)
  {
    BorrowsAccrued(bs, reserves, n);
  }

  /// `after` is the borrow `before` refreshed: accrued to its reserve's
  /// cumulative borrow rate and valued at the reserve's market price.
  predicate BorrowRefreshed(before: ObligationLiquidity, after: ObligationLiquidity,
                            reserves: map<Pubkey, ReserveState>)
  {
    && before.borrow_reserve in reserves
    && var reserve := reserves[before.borrow_reserve];
       && AccrueBorrowInterest(before, reserve.liquidity.cumulative_borrow_rate_wads)
          == Ok(after.(market_value := before.market_value))
       && MarketValue(reserve, after.borrowed_amount_wads) == Ok(after.market_value)
  }

  /// Each refreshed borrow keeps its reserve, carries its reserve's
  /// cumulative borrow rate, owes no less than before, and is the borrow
  /// accrued and revalued.
  lemma {:induction false} BorrowsAccrued(bs: seq<ObligationLiquidity>, reserves: map<Pubkey, ReserveState>, n: nat)
    requires n <= |bs| && BorrowReservesKnown(bs, reserves)
    requires RefreshBorrows(bs, reserves, n).Ok?
    ensures var r := RefreshBorrows(bs, reserves, n).value;
            forall i :: 0 <= i < n ==>
              && r.0[i].borrow_reserve == bs[i].borrow_reserve
              && r.0[i].cumulative_borrow_rate_wads
                 == reserves[bs[i].borrow_reserve].liquidity.cumulative_borrow_rate_wads
              && r.0[i].borrowed_amount_wads >= bs[i].borrowed_amount_wads
    ensures var r := RefreshBorrows(bs, reserves, n).value;
            forall i :: 0 <= i < n ==> BorrowRefreshed(bs[i], r.0[i], reserves)
  {
    if n > 0 {
      BorrowsAccrued(bs, reserves, n - 1);
      BorrowsStep(bs, reserves, n - 1);
      var prev := RefreshBorrows(bs, reserves, n - 1).value;
      var step := RefreshBorrow(bs[n - 1], reserves, prev.1).value;
      var r := RefreshBorrows(bs, reserves, n).value;
      assert r.0 == prev.0 + [step.0];
      forall i | 0 <= i < n
        ensures && r.0[i].borrow_reserve == bs[i].borrow_reserve
                && r.0[i].cumulative_borrow_rate_wads
                   == reserves[bs[i].borrow_reserve].liquidity.cumulative_borrow_rate_wads
                && r.0[i].borrowed_amount_wads >= bs[i].borrowed_amount_wads
        ensures BorrowRefreshed(bs[i], r.0[i], reserves)
      {
        if i < n - 1 {
          assert r.0[i] == prev.0[i];
        }
      }
    }
  }

  /// The obligation after `offchain_refresh_obligation`: deposits and
  /// borrows revalued, the deposited, unhealthy, super-unhealthy and
  /// borrowed values recomputed from zero, everything else as it was.
  function RefreshedObligation(o: ObligationState, reserves: map<Pubkey, ReserveState>)
    : (r: Result<ObligationState>)
    requires BorrowReservesKnown(o.borrows, reserves)
    ensures RefreshDeposits(o.deposits, reserves, |o.deposits|).Err? ==>
              r == Err(RefreshDeposits(o.deposits, reserves, |o.deposits|).error)
    ensures r.Ok? ==> |r.value.deposits| == |o.deposits| && |r.value.borrows| == |o.borrows|
    ensures r.Ok? <==> RefreshDeposits(o.deposits, reserves, |o.deposits|).Ok?
                       && RefreshBorrows(o.borrows, reserves, |o.borrows|).Ok?
    // the deposits and borrows are those the two loops refresh
    ensures r.Ok? ==> r.value.deposits == RefreshDeposits(o.deposits, reserves, |o.deposits|).value.0
    ensures r.Ok? ==> r.value.borrows == RefreshBorrows(o.borrows, reserves, |o.borrows|).value.0
    ensures r.Ok? ==> r.value.allowed_borrow_value == o.allowed_borrow_value
    ensures r.Ok? ==> r.value.borrowed_value_upper_bound == o.borrowed_value_upper_bound
    // the four values are recomputed from the revalued deposits and borrows
    ensures r.Ok? ==>
              && r.value.deposited_value == DepositsValue(r.value.deposits)
              && r.value.unhealthy_borrow_value == ThresholdValue(r.value.deposits, reserves, false)
              && r.value.super_unhealthy_borrow_value == ThresholdValue(r.value.deposits, reserves, true)
              && r.value.borrowed_value == WeightedBorrowsValue(r.value.borrows, reserves)
  {
    var deposits :- RefreshDeposits(o.deposits, reserves, |o.deposits|);
    var borrows :- RefreshBorrows(o.borrows, reserves, |o.borrows|);
    DepositsValueTotal(o.deposits, reserves, |o.deposits|);
    BorrowsValueTotal(o.borrows, reserves, |o.borrows|);
    Ok(o.(deposits := deposits.0, borrows := borrows.0,
          deposited_value := deposits.1.deposited,
          unhealthy_borrow_value := deposits.1.unhealthy,
          super_unhealthy_borrow_value := deposits.1.superUnhealthy,
          borrowed_value := borrows.1))
  }

  /// What a refreshed obligation's values imply: the borrowed value is at
  /// least the sum of the borrows' market values (equal when no reserve
  /// adds borrow weight), and the unhealthy values are ordered below the
  /// deposited value when the reserves' thresholds are.
  lemma RefreshedObligationValues(o: ObligationState, reserves: map<Pubkey, ReserveState>)
    requires BorrowReservesKnown(o.borrows, reserves)
    requires RefreshedObligation(o, reserves).Ok?
    ensures var r := RefreshedObligation(o, reserves).value;
            r.borrowed_value >= BorrowsValue(r.borrows)
    ensures (forall k :: k in reserves ==> reserves[k].config.added_borrow_weight_bps == 0) ==>
              var r := RefreshedObligation(o, reserves).value;
              r.borrowed_value == BorrowsValue(r.borrows)
    ensures (forall k :: k in reserves ==> ThresholdsOrdered(reserves[k].config)) ==>
              var r := RefreshedObligation(o, reserves).value;
              r.unhealthy_borrow_value <= r.super_unhealthy_borrow_value <= r.deposited_value
  {
    var r := RefreshedObligation(o, reserves).value;
    BorrowsReservesStayKnown(o.borrows, reserves, |o.borrows|);
    WeightedBorrowsAtLeast(r.borrows, reserves);
    if forall k :: k in reserves ==> ThresholdsOrdered(reserves[k].config) {
      ThresholdValuesOrdered(r.deposits, reserves);
    }
  }

  /// An obligation whose values the off-chain refresh recomputes in place.
  class Obligation {
    var deposits: seq<ObligationCollateral>
    var borrows: seq<ObligationLiquidity>
    var deposited_value: Decimal
    var borrowed_value: Decimal
    var allowed_borrow_value: Decimal
    var borrowed_value_upper_bound: Decimal
    var unhealthy_borrow_value: Decimal
    var super_unhealthy_borrow_value: Decimal

    function Value(): ObligationState
      reads this
    {
      ObligationState(deposits, borrows, deposited_value, borrowed_value, allowed_borrow_value,
                      borrowed_value_upper_bound, unhealthy_borrow_value, super_unhealthy_borrow_value)
    }

    constructor FromValue(o: ObligationState)
      ensures Value() == o
    {
      deposits, borrows := o.deposits, o.borrows;
      deposited_value, borrowed_value := o.deposited_value, o.borrowed_value;
      allowed_borrow_value, borrowed_value_upper_bound := o.allowed_borrow_value, o.borrowed_value_upper_bound;
      unhealthy_borrow_value, super_unhealthy_borrow_value := o.unhealthy_borrow_value, o.super_unhealthy_borrow_value;
    }
  }

  /// `offchain_refresh_obligation`: zeroes the four values, then revalues
  /// each deposit and each borrow in turn, adding into them. The first
  /// failure is returned, with the obligation part-way refreshed.
  method RefreshObligation(o: Obligation, reserves: map<Pubkey, ReserveState>) returns (outcome: Outcome)
    requires BorrowReservesKnown(o.borrows, reserves)
    modifies o
    ensures outcome.Pass? <==> RefreshedObligation(old(o.Value()), reserves).Ok?
    ensures outcome.Pass? ==> o.Value() == RefreshedObligation(old(o.Value()), reserves).value
    ensures outcome.Fail? ==> outcome.error == RefreshedObligation(old(o.Value()), reserves).error
    ensures o.allowed_borrow_value == old(o.allowed_borrow_value)
    ensures o.borrowed_value_upper_bound == old(o.borrowed_value_upper_bound)
  {
    o.deposited_value := 0;
    o.super_unhealthy_borrow_value := 0;
    o.unhealthy_borrow_value := 0;
    o.borrowed_value := 0;
    outcome := RefreshObligationDeposits(o, reserves);
    if outcome.Fail? {
      return;
    }
    outcome := RefreshObligationBorrows(o, reserves);
  }

  /// The deposits loop of `offchain_refresh_obligation`.
  method RefreshObligationDeposits(o: Obligation, reserves: map<Pubkey, ReserveState>) returns (outcome: Outcome)
    requires o.deposited_value == 0 && o.unhealthy_borrow_value == 0 && o.super_unhealthy_borrow_value == 0
    modifies o
    ensures var r := RefreshDeposits(old(o.deposits), reserves, |old(o.deposits)|);
            && (outcome.Pass? <==> r.Ok?)
            && (outcome.Fail? ==> outcome.error == r.error)
            && (outcome.Pass? ==>
                  o.Value() == old(o.Value()).(deposits := r.value.0, deposited_value := r.value.1.deposited,
                                               unhealthy_borrow_value := r.value.1.unhealthy,
                                               super_unhealthy_borrow_value := r.value.1.superUnhealthy))
    ensures o.borrows == old(o.borrows) && o.borrowed_value == old(o.borrowed_value)
    ensures o.allowed_borrow_value == old(o.allowed_borrow_value)
    ensures o.borrowed_value_upper_bound == old(o.borrowed_value_upper_bound)
  {
    var i := 0;
    while i < |o.deposits|
      invariant 0 <= i <= |o.deposits| == |old(o.deposits)|
      invariant RefreshDeposits(old(o.deposits), reserves, i)
                == Ok((o.deposits[..i],
                       DepositTotals(o.deposited_value, o.unhealthy_borrow_value, o.super_unhealthy_borrow_value)))
      invariant o.deposits[i..] == old(o.deposits)[i..]
      invariant o.Value() == old(o.Value()).(deposits := o.deposits, deposited_value := o.deposited_value,
                                             unhealthy_borrow_value := o.unhealthy_borrow_value,
                                             super_unhealthy_borrow_value := o.super_unhealthy_borrow_value)
    {
      assert o.deposits[i] == old(o.deposits)[i];
      outcome := RefreshDepositAt(o, reserves, i, old(o.deposits));
      if outcome.Fail? {
        DepositsErrorPersists(old(o.deposits), reserves, i + 1, |old(o.deposits)|);
        return;
      }
      i := i + 1;
    }
    assert o.deposits[..i] == o.deposits;
    return Pass;
  }

  /// One turn of the deposits loop: deposit `i` is revalued and added into
  /// the obligation's three values, as the fold `RefreshDeposits` takes its
  /// next step over the original deposits `ds`.
  method RefreshDepositAt(o: Obligation, reserves: map<Pubkey, ReserveState>, i: nat,
                          ghost ds: seq<ObligationCollateral>) returns (outcome: Outcome)
    requires i < |o.deposits| == |ds| && o.deposits[i..] == ds[i..]
    requires RefreshDeposits(ds, reserves, i)
             == Ok((o.deposits[..i],
                    DepositTotals(o.deposited_value, o.unhealthy_borrow_value, o.super_unhealthy_borrow_value)))
    modifies o
    ensures |o.deposits| == |ds| && o.deposits[i + 1..] == ds[i + 1..]
    ensures outcome.Fail? ==> RefreshDeposits(ds, reserves, i + 1) == Err(outcome.error)
    ensures outcome.Pass? ==>
              RefreshDeposits(ds, reserves, i + 1)
              == Ok((o.deposits[..i + 1],
                     DepositTotals(o.deposited_value, o.unhealthy_borrow_value, o.super_unhealthy_borrow_value)))
    ensures o.Value() == old(o.Value()).(deposits := o.deposits, deposited_value := o.deposited_value,
                                         unhealthy_borrow_value := o.unhealthy_borrow_value,
                                         super_unhealthy_borrow_value := o.super_unhealthy_borrow_value)
  {
    assert o.deposits[i] == ds[i];
    var totals := DepositTotals(o.deposited_value, o.unhealthy_borrow_value, o.super_unhealthy_borrow_value);
    var step := RefreshDeposit(o.deposits[i], reserves, totals);
    DepositsStep(ds, reserves, i);
    if step.Err? {
      return Fail(step.error);
    }
    ghost var done := o.deposits[..i];
    o.deposits := o.deposits[i := step.value.0];
    o.deposited_value := step.value.1.deposited;
    o.unhealthy_borrow_value := step.value.1.unhealthy;
    o.super_unhealthy_borrow_value := step.value.1.superUnhealthy;
    assert o.deposits[..i + 1] == done + [step.value.0];
    return Pass;
  }

  method RefreshObligationBorrows(o: Obligation, reserves: map<Pubkey, ReserveState>) returns (outcome: Outcome)
    requires BorrowReservesKnown(o.borrows, reserves)
    requires o.borrowed_value == 0
    modifies o
    ensures var r := RefreshBorrows(old(o.borrows), reserves, |old(o.borrows)|);
            && (outcome.Pass? <==> r.Ok?)
            && (outcome.Fail? ==> outcome.error == r.error)
            && (outcome.Pass? ==> o.Value() == old(o.Value()).(borrows := r.value.0, borrowed_value := r.value.1))
    ensures o.allowed_borrow_value == old(o.allowed_borrow_value)
    ensures o.borrowed_value_upper_bound == old(o.borrowed_value_upper_bound)
  {
    var i := 0;
    while i < |o.borrows|
      invariant 0 <= i <= |o.borrows| == |old(o.borrows)|
      invariant RefreshBorrows(old(o.borrows), reserves, i) == Ok((o.borrows[..i], o.borrowed_value))
      invariant o.borrows[i..] == old(o.borrows)[i..]
      invariant o.Value() == old(o.Value()).(borrows := o.borrows, borrowed_value := o.borrowed_value)
    {
      assert o.borrows[i] == old(o.borrows)[i];
      outcome := RefreshBorrowAt(o, reserves, i, old(o.borrows));
      if outcome.Fail? {
        BorrowsErrorPersists(old(o.borrows), reserves, i + 1, |old(o.borrows)|);
        return;
      }
      i := i + 1;
    }
    assert o.borrows[..i] == o.borrows;
    return Pass;
  }

  /// One turn of the borrows loop: borrow `i` accrues interest, is revalued
  /// and added into the borrowed value, as the fold `RefreshBorrows` takes
  /// its next step over the original borrows `bs`.
  method RefreshBorrowAt(o: Obligation, reserves: map<Pubkey, ReserveState>, i: nat,
                         ghost bs: seq<ObligationLiquidity>) returns (outcome: Outcome)
    requires i < |o.borrows| == |bs| && o.borrows[i] == bs[i]
    requires BorrowReservesKnown(bs, reserves)
    requires RefreshBorrows(bs, reserves, i) == Ok((o.borrows[..i], o.borrowed_value))
    modifies o
    ensures |o.borrows| == |bs| && o.borrows[i + 1..] == old(o.borrows)[i + 1..]
    ensures outcome.Fail? ==> RefreshBorrows(bs, reserves, i + 1) == Err(outcome.error)
    ensures outcome.Pass? ==> RefreshBorrows(bs, reserves, i + 1) == Ok((o.borrows[..i + 1], o.borrowed_value))
    ensures o.Value() == old(o.Value()).(borrows := o.borrows, borrowed_value := o.borrowed_value)
  {
    var step := RefreshBorrow(o.borrows[i], reserves, o.borrowed_value);
    BorrowsStep(bs, reserves, i);
    if step.Err? {
      return Fail(step.error);
    }
    ghost var done := o.borrows[..i];
    o.borrows := o.borrows[i := step.value.0];
    o.borrowed_value := step.value.1;
    assert o.borrows[..i + 1] == done + [step.value.0];
    return Pass;
  }
}
