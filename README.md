# Solend reserve model

This project models the reserve of the Solend token-lending program and
the SDK's off-chain refresh helpers in Dafny, and proves properties of
that model. A reserve is one token's lending pool. Depositors put in
liquidity and receive collateral tokens at an exchange rate. Borrowers take
liquidity out and owe debt that grows with a cumulative borrow rate. The
protocol keeps a share of the interest as fees.

The model covers:

- the reserve's configuration, its validation and the borrow and
  flash-loan fee schedule (`reserve_config.dfy`);
- the reserve's state and the pure computations on it: total supply,
  utilisation, the piecewise-linear borrow-rate curve, the collateral
  exchange rate and conversions, market values at the market, upper-bound
  and lower-bound prices, borrow weight, and interest compounding
  (`reserve_state.dfy`);
- the calculators: borrow, repay, liquidation bonus, liquidation, the
  protocol's liquidation fee and fee redemption (`reserve_calc.dfy`);
- the reserve's parts as objects that change in place: deposit, withdraw,
  borrow, repay, forgive debt, redeem fees, compound interest, mint and
  burn, and the reserve's own deposit, redeem and interest accrual
  (`reserve_objects.dfy`);
- the 619-byte account layout, packing and unpacking, with the
  normalisation unpacking applies (`reserve_pack.dfy`);
- the off-chain refresh of a reserve's price and interest and of an
  obligation's values (`offchain.dfy`, with the obligation records in
  `obligations.dfy`).

Fixed-point numbers are modelled in `fixed_point.dfy` as scaled naturals.
The scale is WAD = 10^18. A `Decimal` is bounded by 2^192 and a `Rate` by
2^128. Every checked operation returns `MathOverflow` where the program's
checked arithmetic does. Multiplication and division round down. The math
module itself is not part of this model; its behaviour is restated from
how the reserve code uses it.

Every failure the program reports is an `Err` or `Fail` value with the
program's error kind. A Rust `unwrap` or slice-width assumption that stops
the program on bad input becomes a `requires`; these are listed below.

Where an operation changes a struct through `&mut self`, the model is a
class whose `Value()` reads back the datatype. Each method's contract states
the new value in terms of the old one. For the reserve methods that includes
the partial update a failure half-way through leaves behind, as the program
has it; a failed interest accrual leaves the cumulative borrow rate
unstated. For the obligation refresh the failure state is not stated (see
"Left out"). The pure functions on the datatypes carry the properties. The
methods' contracts tie each method to its function.

## Model

| member | source | states |
|---|---|---|
| Reserves.SlotsElapsed | token-lending/sdk/src/state/reserve.rs:245 | the slots since the last update are defined exactly when the slot is not earlier, and added to the last update's slot they give the slot |
| Reserves.TotalSupply | token-lending/sdk/src/state/reserve.rs:620-624 | defined iff available plus borrowed fits 192 bits and the accumulated fees do not exceed it; the total plus the fees is available plus borrowed |
| Reserves.UtilizationRate | token-lending/sdk/src/state/reserve.rs:699-708 | the borrowed share of borrowed plus available, rounded down, with both halves of the floor; zero for an empty reserve or no debt; one when nothing is available; defined exactly when the scaled debt fits in 192 bits (or no division is needed); a total-supply error propagates |
| Reserves.Interpolate | token-lending/sdk/src/state/reserve.rs:195-213 | the point `lo + range * part / whole`, short of it by less than the two roundings (a two-sided bound); between its low and high ends, equal to the low end at zero and to the high end at the segment's end |
| Reserves.InterpolateMonotone | token-lending/sdk/src/state/reserve.rs:195-213 | a linear segment of the curve never decreases in the utilisation |
| Reserves.AboveMaxRate | token-lending/sdk/src/state/reserve.rs:214-233 | the segment above maximum utilisation is defined iff the max borrow rate does not exceed the super max rate, lies between the two, and reaches the super max rate at full utilisation |
| Reserves.AboveMaxRateMonotone | token-lending/sdk/src/state/reserve.rs:214-233 | the segment above maximum utilisation never decreases in the utilisation |
| Reserves.BorrowRateCurve | token-lending/sdk/src/state/reserve.rs:184-235 | on the two lower segments the `Interpolate` value between the configured points, on the top segment `AboveMaxRate`; each segment fails exactly when its own two rates are out of order, so the curve is always defined for ordered rates; passes through the minimum, optimal, max and super max rates; each value within its segment's rate bounds |
| Reserves.BorrowRateCurveMonotone | token-lending/sdk/src/state/reserve.rs:184-235 | for ordered rates the borrow rate never decreases as utilisation grows, across all segments |
| Reserves.LowSegmentMonotone | token-lending/sdk/src/state/reserve.rs:188-203 | monotonicity up to optimal utilisation |
| Reserves.MiddleSegmentMonotone | token-lending/sdk/src/state/reserve.rs:204-213 | monotonicity between optimal and maximum utilisation |
| Reserves.AcrossSegmentsMonotone | token-lending/sdk/src/state/reserve.rs:184-235 | monotonicity for two utilisations in different segments |
| Reserves.CurrentBorrowRate | token-lending/sdk/src/state/reserve.rs:184-187 | the curve at the reserve's utilisation; a utilisation error propagates; defined for ordered rates |
| Reserves.ExchangeRate | token-lending/sdk/src/state/reserve.rs:797-809 | the initial rate when no collateral is minted or no liquidity is supplied; otherwise defined exactly when the ratio of collateral supply to total liquidity fits 128 bits, and then that ratio rounded down (two-sided bound); every failure is an overflow |
| Reserves.CollateralExchangeRate | token-lending/sdk/src/state/reserve.rs:238-241 | the exchange rate at the reserve's total supply; the total-supply error is returned as is |
| Reserves.DecimalCollateralToLiquidity | token-lending/sdk/src/state/reserve.rs:832-837 | defined iff the rate is non-zero and the scaled amount fits; the rounded-down quotient of collateral by the rate |
| Reserves.CollateralToLiquidity | token-lending/sdk/src/state/reserve.rs:826-829 | defined exactly when the rate is non-zero and the quotient fits 64 bits; the whole liquidity tokens are collateral divided by the rate, rounded down (two-sided bound) |
| Reserves.DecimalLiquidityToCollateral | token-lending/sdk/src/state/reserve.rs:846-851 | defined iff the product fits; the rounded-down product of liquidity and rate |
| Reserves.LiquidityToCollateral | token-lending/sdk/src/state/reserve.rs:840-843 | defined exactly when the product fits 64 bits; the whole collateral tokens are liquidity times the rate, rounded down (two-sided bound) |
| Reserves.DepositThenRedeemNoGain | token-lending/sdk/src/state/reserve.rs:826-851 | depositing liquidity and redeeming the collateral received never returns more liquidity than was deposited |
| Reserves.RedeemThenDepositNoGain | token-lending/sdk/src/state/reserve.rs:826-851 | redeeming collateral and depositing the liquidity received never mints more collateral than was redeemed |
| Reserves.MintFactor | token-lending/sdk/src/state/reserve.rs:113-117 | ten to the token's decimals, defined iff it fits 128 bits |
| Reserves.ValueAtPrice | token-lending/sdk/src/state/reserve.rs:108-119 | defined iff price times amount fits and the decimals factor does; the value is price times amount over the factor, rounded down (two-sided bound) |
| Reserves.ValueAtPriceMonotone | token-lending/sdk/src/state/reserve.rs:121-158 | a lower price never gives a higher value |
| Reserves.MarketValue | token-lending/sdk/src/state/reserve.rs:108-119 | the amount valued at the market price over the decimals factor, rounded down (two-sided bound), with the same definedness |
| Reserves.MarketValueUpperBound | token-lending/sdk/src/state/reserve.rs:121-139 | defined exactly when the product at the larger of the market and smoothed prices fits and the decimals factor fits; then a two-sided floor of that price times the amount over the factor; at least the market value |
| Reserves.MarketValueLowerBound | token-lending/sdk/src/state/reserve.rs:141-158 | defined exactly when the product at the smaller of the two prices fits and the decimals factor fits; then a two-sided floor of that price times the amount over the factor; defined whenever the market value is, and at most it |
| Reserves.UsdToLiquidityAmountLowerBound | token-lending/sdk/src/state/reserve.rs:90-106 | defined exactly when the factor fits, a price is non-zero and the scaled quote fits; the tokens are the quote scaled by the decimals factor over the higher price, rounded down (two-sided bound); both prices zero is an overflow |
| Reserves.MarketValueRoundTripNoGain | token-lending/sdk/src/state/reserve.rs:90-119 | valuing an amount and converting the value back to tokens never yields more tokens |
| Reserves.MarketValueBoundsExample | token-lending/sdk/src/state/reserve.rs:1967-2003 | at prices 25 and 50 for a nine-decimal token, ten SOL is worth 250 at the market price and the lower bound and 500 at the upper bound; one base unit is worth 25 over 10^9 |
| Reserves.BorrowWeight | token-lending/sdk/src/state/reserve.rs:77-81 | at least one, and exactly one iff no weight is added |
| Reserves.LoanToValueRatio | token-lending/sdk/src/state/reserve.rs:84-87 | a whole percentage, below one for every valid configuration |
| Reserves.CompoundFactor | token-lending/sdk/src/state/reserve.rs:717-720 | the power to the elapsed slots of one plus the yearly rate over the slots per year (rounded down); at least one; exactly one for no slots or for a rate below one unit per slot; for one slot the per-slot factor itself, defined exactly when its square fits in 128 bits (the power squares the base once more than it needs); above one when the rate gives at least one unit per slot |
| Reserves.CompoundInterest | token-lending/sdk/src/state/reserve.rs:711-736 | the cumulative rate and the debt are each the compound factor times their old value, rounded down; fails with the factor's error or exactly when `AccrueAtFactor` does; only the cumulative rate, debt and fees change; rate and debt never decrease; the fees grow by the take rate of the new debt; no slots, or a rate below one unit per slot: unchanged (defined when the products by one fit); a positive per-slot rate strictly grows a debt of at least one token |
| Reserves.AccrueAtFactor | token-lending/sdk/src/state/reserve.rs:721-735 | both products by the factor, rounded down; defined exactly when the two products, the protocol's share of the new debt and the new fee total fit; the fees grow by the take rate of the new debt; a factor of one changes nothing; a factor above one strictly grows a debt of at least one token |
| Reserves.AccruedLiquidity | token-lending/sdk/src/state/reserve.rs:244-253 | a slot before the last update fails; the same slot changes nothing; a later slot gives `CompoundInterest` at the current borrow rate, the elapsed slots and the protocol take rate, or the borrow-rate error; the cumulative rate and debt never decrease |
| Reserves.AccrualKeepsTotalSupply | token-lending/sdk/src/state/reserve.rs:244-253 | with a take rate of at most 100%, accrual never lowers the total supply: the debt grows by the new interest and the fees by at most that |
| Reserves.ExchangeRateAntitone | token-lending/sdk/src/state/reserve.rs:797-809 | more liquidity behind the same collateral never raises the exchange rate, and keeps it defined |
| Reserves.AccrualNeverRaisesExchangeRate | token-lending/sdk/src/state/reserve.rs:238-253 | accruing interest never raises the collateral exchange rate, so collateral is never worth less liquidity afterwards |
| Reserves.AccrualWithoutCollateralKeepsRate | token-lending/sdk/src/state/reserve.rs:238-253 | the decrease need not be strict: with no collateral minted the rate stays the initial one after any accrual |
| Reserves.FlatRateAccrual | token-lending/sdk/src/state/reserve.rs:1737-1766 | with every curve rate at the same percentage, accrual after some slots leaves the liquidity unchanged at zero percent (defined when the utilisation and the products by one are) and strictly grows a debt of at least one token at a positive percentage |
| ReserveConfigs.ReserveTypeFromStr | token-lending/sdk/src/state/reserve.rs:1003-1012 | succeeds exactly for the two variant names and returns the variant of that name; anything else is `InvalidConfig` |
| ReserveConfigs.ReserveTypeNameParses | token-lending/sdk/src/state/reserve.rs:995-1012 | parsing a variant's name gives back the variant |
| ReserveConfigs.CalculateFees | token-lending/sdk/src/state/reserve.rs:1062-1110 | no fee for a zero rate or amount; otherwise the fee is the computed fee (`FeeAmount`) raised to the minimum fee, rounded half up, and the host fee is `HostFee` of that unrounded fee; an overflowing computed fee is `MathOverflow`; `BorrowTooSmall` exactly when that fee reaches the amount, so always for an amount at or below the minimum; a fee below the amount is charged exactly when it and the host share round into 64 bits; a charged fee is at least the minimum; the host share is at most the fee, all of it at 100% |
| ReserveConfigs.MinimumFee | token-lending/sdk/src/state/reserve.rs:1072-1076 | two tokens when a host fee is set (one for the owner, one for the host), one otherwise |
| ReserveConfigs.InclusiveRate | token-lending/sdk/src/state/reserve.rs:1082-1085 | the rate divided by one plus the rate, rounded down (two-sided bound), always below one |
| ReserveConfigs.FeeAmount | token-lending/sdk/src/state/reserve.rs:1078-1087 | exclusive: amount times rate, rounded down (two-sided bound), defined iff that fits; inclusive: at most amount times rate over one plus the rate, and below it by less than one unit plus the rounding of the rate; defined iff the product with the inclusive rate fits |
| ReserveConfigs.HostFee | token-lending/sdk/src/state/reserve.rs:1096-1103 | nothing at a zero host rate; otherwise at least one token, the fee times the rate rounded half up (within half a token unless raised to one), defined exactly when the product fits 192 bits and its rounding fits 64 bits |
| ReserveConfigs.HostFeeBounds | token-lending/sdk/src/state/reserve.rs:1096-1103 | the rounded host share never exceeds the rounded fee, and equals it at 100% |
| ReserveConfigs.CalculateBorrowFees | token-lending/sdk/src/state/reserve.rs:1037-1043 | `CalculateFees` at the borrow fee rate, hence no fee when that rate is zero and a host share of at most the fee |
| ReserveConfigs.CalculateFlashLoanFees | token-lending/sdk/src/state/reserve.rs:1046-1060 | origination fee plus host fee is the exclusive flash-loan fee; defined exactly when that fee is; no origination fee at 100% host share |
| ReserveConfigs.ValidateReserveConfig | token-lending/sdk/src/state/reserve.rs:907-991 | passes iff every range check holds (ordered utilisations, bonuses, thresholds and rates, fee bounds, the bonus cap, isolated assets without LTV); every failure is `InvalidConfig` |
| ReserveCalcs.MintFactorU64 | token-lending/sdk/src/state/reserve.rs:263-265 | ten to the decimals as a 64-bit integer, defined iff it fits |
| ReserveCalcs.MaxBorrowAmount | token-lending/sdk/src/state/reserve.rs:266-275 | defined exactly when the decimals factor and `WeightedBorrowLimit` are; then the least of that limit, the remaining borrow capacity and the available liquidity; its weighted value at the higher price is within the value limit |
| ReserveCalcs.WeightedBorrowLimit | token-lending/sdk/src/state/reserve.rs:266-272 | the value limit converted to tokens at the higher price and divided by the borrow weight: its weighted value is within the limit and one more unit would exceed it (less one division's rounding); defined exactly when the price is non-zero and the scaled limit and token count fit 192 bits |
| ReserveCalcs.BorrowMax | token-lending/sdk/src/state/reserve.rs:266-290 | the borrow amount is the maximum amount, the fees are its inclusive fees, and what is received plus the fee is its whole-token part; fails with the maximum amount's error, then with the fee's error, then with `MathOverflow` exactly when the fee exceeds the whole tokens |
| ReserveCalcs.BorrowExact | token-lending/sdk/src/state/reserve.rs:291-314 | the borrower receives exactly the requested amount and owes it plus the exclusive fee, whose weighted upper-bound value is within the limit; once fee and value are defined the borrow succeeds exactly when that value is within the limit, and `BorrowTooLarge` means it exceeds it |
| ReserveCalcs.CalculateBorrow | token-lending/sdk/src/state/reserve.rs:256-315 | fails when the decimals factor overflows; otherwise the maximum for `u64::MAX` and the exact borrow for any other amount |
| ReserveCalcs.MaxBorrowWithinLimit | token-lending/sdk/src/state/reserve.rs:266-314 | the maximum borrow, checked as an exact borrow is checked, never exceeds the value limit |
| ReserveCalcs.FeeAtMostAmount | token-lending/sdk/src/state/reserve.rs:297-299 | the exclusive fee never exceeds the amount, so the owed sum fits |
| ReserveCalcs.CalculateRepay | token-lending/sdk/src/state/reserve.rs:318-334 | settles at most the debt, all of it for `u64::MAX`, otherwise the smaller of request and debt; charges the settled amount's ceiling, never more than requested; a specific amount always succeeds, `u64::MAX` exactly when the debt's ceiling fits 64 bits |
| ReserveCalcs.MaxBonus | token-lending/sdk/src/state/reserve.rs:33 | the bonus cap is 25% |
| ReserveCalcs.CalculateBonus | token-lending/sdk/src/state/reserve.rs:338-384 | `ObligationHealthy` below the unhealthy value; the error cases in full; the base bonus plus protocol fee when the two thresholds coincide; otherwise the base bonus plus the capped weight times the bonus range, plus the protocol fee, capped at 25%, hence the maximum bonus at or past the super-unhealthy value |
| ReserveCalcs.BonusWeight | token-lending/sdk/src/state/reserve.rs:363-377 | the excess over the spread, rounded down (two-sided bound) when the division fits, one when it overflows; at least one at or past the upper threshold |
| ReserveCalcs.BonusWeightMonotone | token-lending/sdk/src/state/reserve.rs:363-377 | a larger excess never gives a smaller capped weight |
| ReserveCalcs.InterpolatedBonusMonotone | token-lending/sdk/src/state/reserve.rs:379-383 | when the maximum bonus is at least the base bonus, a larger weight never gives a smaller interpolated bonus, before or after the 25% cap |
| ReserveCalcs.CalculateBonusMonotone | token-lending/sdk/src/state/reserve.rs:338-384 | between the same thresholds, a larger borrowed value is never liquidated at a smaller bonus |
| ReserveCalcs.BonusHalfwayExample | token-lending/sdk/src/state/reserve.rs:2141-2149 | halfway between thresholds of 50 and 150, with bonuses 10% and 20% and a 1% protocol fee, the bonus is 16% |
| ReserveCalcs.CalculateLiquidation | token-lending/sdk/src/state/reserve.rs:387-487 | a bonus error propagates; a borrow worth at most one unit is split by `FullLiquidation`, a larger one by `PartialLiquidation` of the least of the request, the debt and the obligation's limit, so it never settles more than that limit; the bonus rate is one plus the bonus; `LiquidationTooSmall` only for a zero debt |
| ReserveCalcs.FullLiquidation | token-lending/sdk/src/state/reserve.rs:406-445 | with `lv` the debt's value times the bonus rate: collateral worth less than `lv` is withdrawn in full and settles at most its share of the debt; otherwise the whole debt is settled and the collateral withdrawn is worth at most `lv`, or one token; each share falls short of its exact value only by the roundings; succeeds exactly when the settled share fits and its ceiling fits 64 bits, with `LiquidationTooSmall` exactly for a zero debt settled in full below `lv` |
| ReserveCalcs.PartialLiquidation | token-lending/sdk/src/state/reserve.rs:446-479 | the split `LiquidationSplit` gives for the amount's bonus-inflated value `PartialLiquidationValue`; collateral withdrawn short of the whole deposit is worth at most the settled share of the borrow's value times the bonus rate |
| ReserveCalcs.PartialLiquidationValue | token-lending/sdk/src/state/reserve.rs:452-456 | the amount's share of the borrow's value times the bonus rate: never above the exact value and short of it by at most the three roundings; defined exactly when the three steps fit, so a zero debt fails |
| ReserveCalcs.LiquidationSplit | token-lending/sdk/src/state/reserve.rs:458-479 | collateral worth less than the liquidation value is withdrawn in full and settles at most its share of the amount; otherwise the whole amount is settled and the collateral withdrawn is worth at most the liquidation value; each share falls short of its exact value only by the roundings; succeeds exactly when the ratio, the settled share and its ceiling fit |
| ReserveCalcs.ShareOfDeposit | token-lending/sdk/src/state/reserve.rs:474-476 | the withdrawn share is at most the deposit and at most the deposit times the fraction |
| ReserveCalcs.CalculateProtocolLiquidationFee | token-lending/sdk/src/state/reserve.rs:493-508 | at least one token; the fee rate's share of the amount without its bonus, rounded up: at most one token above that share and below it by at most the two roundings; a zero bonus rate fails |
| ReserveCalcs.ProtocolFeeExamples | token-lending/sdk/src/state/reserve.rs:1942-1965 | liquidating 105 tokens at a 105% bonus rate costs one token at a 1% fee and two at a 2% fee |
| ReserveCalcs.ProtocolLiquidationFeeAtMostAmount | token-lending/sdk/src/state/reserve.rs:489-508 | for a bonus rate of at least one the fee is always defined and at most the amount liquidated (or the one-token minimum) |
| ReserveCalcs.CalculateRedeemFees | token-lending/sdk/src/state/reserve.rs:511-518 | the smaller of the available liquidity and the whole accumulated fees; defined iff the fees floor to 64 bits |
| Obligations.AccrueBorrowInterest | token-lending/sdk/src/offchain_utils.rs:149 | a lower cumulative rate is `NegativeInterestRate`; an equal one changes nothing; a higher one makes the debt `debt * new / old`, never above it and short by at most the two roundings, defined exactly when the ratio fits 128 bits and the grown debt 192 bits; only debt and rate change, the rate becomes the reserve's |
| ReserveObjects.ReserveLiquidity.New | token-lending/sdk/src/state/reserve.rs:603-617 | no liquidity, no debt, no fees, a cumulative rate of one |
| ReserveObjects.ReserveLiquidity.Deposit | token-lending/sdk/src/state/reserve.rs:627-633 | the available amount grows by the deposit; an overflow changes nothing |
| ReserveObjects.ReserveLiquidity.Withdraw | token-lending/sdk/src/state/reserve.rs:636-646 | the available amount shrinks by the withdrawal; more than available is `InsufficientLiquidity` and changes nothing |
| ReserveObjects.ReserveLiquidity.Borrow | token-lending/sdk/src/state/reserve.rs:649-663 | whole tokens leave the available amount and the exact amount joins the debt; the failures, including the debt overflow that leaves the available amount reduced |
| ReserveObjects.ReserveLiquidity.Repay | token-lending/sdk/src/state/reserve.rs:666-675 | the repaid tokens join the available amount and the debt drops by at most itself |
| ReserveObjects.ReserveLiquidity.ForgiveDebt | token-lending/sdk/src/state/reserve.rs:679-683 | the debt drops by the forgiven amount; more than the debt fails and changes nothing |
| ReserveObjects.ReserveLiquidity.RedeemFees | token-lending/sdk/src/state/reserve.rs:686-696 | the available amount and the fees drop by the withdrawal; the fee underflow that leaves the available amount reduced |
| ReserveObjects.ReserveLiquidity.CompoundInterest | token-lending/sdk/src/state/reserve.rs:711-736 | succeeds exactly when `Reserves.CompoundInterest` does and then takes its value; a failure leaves everything but possibly the grown cumulative rate |
| ReserveObjects.ReserveCollateral.New | token-lending/sdk/src/state/reserve.rs:770-776 | nothing minted |
| ReserveObjects.ReserveCollateral.Mint | token-lending/sdk/src/state/reserve.rs:779-785 | the supply grows by the amount; an overflow changes nothing |
| ReserveObjects.ReserveCollateral.Burn | token-lending/sdk/src/state/reserve.rs:788-794 | the supply shrinks by the amount; burning more than exists fails and changes nothing |
| ReserveObjects.InitialState | token-lending/sdk/src/state/reserve.rs:66-75 | the current version, a stale last update at the current slot, and the given parts |
| ReserveObjects.CollateralForDeposit | token-lending/sdk/src/state/reserve.rs:161-163 | the liquidity converted at the reserve's exchange rate; an exchange-rate error propagates |
| ReserveObjects.LiquidityForRedeem | token-lending/sdk/src/state/reserve.rs:173-175 | the collateral converted at the reserve's exchange rate; an exchange-rate error propagates |
| ReserveObjects.Reserve.New | token-lending/sdk/src/state/reserve.rs:59-64 | a reserve in the initial state |
| ReserveObjects.Reserve.Init | token-lending/sdk/src/state/reserve.rs:66-75 | every part overwritten with the initial state |
| ReserveObjects.Reserve.DepositLiquidity | token-lending/sdk/src/state/reserve.rs:160-170 | returns the collateral minted at the exchange rate; liquidity and supply grow by deposit and minted amount; each failure, including a mint overflow after the deposit was recorded |
| ReserveObjects.Reserve.RedeemCollateral | token-lending/sdk/src/state/reserve.rs:172-182 | returns the liquidity the collateral is worth; supply and liquidity shrink accordingly; each failure, including a shortfall after the burn |
| ReserveObjects.Reserve.AccrueInterest | token-lending/sdk/src/state/reserve.rs:244-253 | succeeds exactly when `Reserves.AccruedLiquidity` does and then takes its value; no slots elapsed changes nothing; a failure changes at most the cumulative rate |
| ReserveObjects.BorrowNeverLowersTotalSupply | token-lending/sdk/src/state/reserve.rs:649-663 | a borrow never lowers the total supply, and the new total is defined exactly when the new gross amount fits |
| ReserveObjects.RepayNeverLowersTotalSupply | token-lending/sdk/src/state/reserve.rs:666-675 | repaying the ceiling of the settled amount never lowers the total supply |
| ReserveObjects.RedeemFeesKeepsTotalSupply | token-lending/sdk/src/state/reserve.rs:686-696 | redeeming fees leaves the total supply unchanged |
| ReserveObjects.ForgiveDebtLowersTotalSupply | token-lending/sdk/src/state/reserve.rs:679-683 | forgiving debt lowers the total supply by exactly the amount forgiven |
| ReservePack.FromLE | token-lending/sdk/src/state/reserve.rs:1400-1414 | a little-endian integer is below 256 to the number of bytes |
| ReservePack.ToLE | token-lending/sdk/src/state/reserve.rs:1225-1282 | the encoding has the field's width and decodes back to the integer |
| ReservePack.ToLEFromLE | token-lending/sdk/src/state/reserve.rs:1225-1414 | re-encoding decoded bytes gives back the bytes |
| ReservePack.Layout | token-lending/sdk/src/state/reserve.rs:1132-1283 | the packed fields take exactly 481 bytes |
| ReservePack.PackIntoSlice | token-lending/sdk/src/state/reserve.rs:1132-1283 | the account starts with the packed fields; the padding and anything after it is untouched |
| ReservePack.WritePrefix | token-lending/sdk/src/state/reserve.rs:1132-1283 | the bytes are copied over the start of the buffer and the rest is untouched |
| ReservePack.UnpackBool | token-lending/sdk/src/state/reserve.rs:1402 | only 0 and 1 are booleans, each the byte of its value; anything else is `InvalidAccountData` |
| ReservePack.Normalize | token-lending/sdk/src/state/reserve.rs:1386-1461 | the maximum utilisation, bonus, threshold and super max rate are raised to their base values, the protocol liquidation fee is capped at 50, and nothing else changes |
| ReservePack.NormalizeNormalizes | token-lending/sdk/src/state/reserve.rs:1386-1460 | the normal form is normalised, and a state is its own normal form iff it is normalised |
| ReservePack.UnpackFromSlice | token-lending/sdk/src/state/reserve.rs:1287-1468 | succeeds iff the version is not newer than the program's and the stale byte is 0 or 1; otherwise `InvalidAccountData`; the result has the stored version, fits the layout and is normalised |
| ReservePack.UnpackPacked | token-lending/sdk/src/state/reserve.rs:1132-1468 | unpacking a packed state gives the state normalised, whatever the padding holds; a newer version is refused |
| ReservePack.PackUnpackRoundTrip | token-lending/sdk/src/state/reserve.rs:1486-1551 | a normalised state of the current version survives packing and unpacking unchanged |
| Offchain.SelectPrice | token-lending/sdk/src/offchain_utils.rs:82-96 | a price exactly when the Pyth oracle has one under a non-null key, or it has none and the Switchboard oracle has one under a non-null key; the price is that oracle's |
| Offchain.RefreshedInterest | token-lending/sdk/src/offchain_utils.rs:63-71 | defined exactly when interest accrues; fails for an earlier slot; the liquidity becomes `AccruedLiquidity` at the slot and the reserve is fresh as of the slot; nothing else changes; rate and debt never decrease |
| Offchain.RefreshInterestIdempotent | token-lending/sdk/src/offchain_utils.rs:63-71 | refreshing twice at one slot is refreshing once |
| Offchain.RefreshedReserve | token-lending/sdk/src/offchain_utils.rs:73-108 | `NoPrice` without a usable price; otherwise the reserve priced at the selected price and then `RefreshedInterest` at the slot |
| Offchain.RefreshReserveIdempotent | token-lending/sdk/src/offchain_utils.rs:73-108 | refreshing twice with the same prices at one slot is refreshing once |
| Offchain.RefreshReserveInterest | token-lending/sdk/src/offchain_utils.rs:63-71 | the reserve becomes `RefreshedInterest` of its old value; a failure leaves it as it was but for the cumulative borrow rate |
| Offchain.RefreshReserve | token-lending/sdk/src/offchain_utils.rs:73-108 | the reserve becomes `RefreshedReserve` of its old value; with no price nothing changes; a failed accrual leaves the selected price set and the reserve otherwise as it was but for the cumulative borrow rate |
| Offchain.RefreshDeposit | token-lending/sdk/src/offchain_utils.rs:119-143 | error code 35 for an unknown reserve; otherwise the first error of the exchange rate, the conversion or the valuation, else success exactly when the three sums and weighted parts fit; only the deposit's market value changes, to its reserve's market value of the deposit's liquidity; the deposited total grows by it, the unhealthy and super-unhealthy totals by it weighted by the two thresholds |
| Offchain.DepositsErrorPersists | token-lending/sdk/src/offchain_utils.rs:119-143 | the deposits loop fails with its first failure |
| Offchain.DepositsValueTotal | token-lending/sdk/src/offchain_utils.rs:119-143 | the deposited, unhealthy and super-unhealthy values are the sums of the refreshed deposits' market values, unweighted and weighted by each reserve's two thresholds |
| Offchain.DepositsKept | token-lending/sdk/src/offchain_utils.rs:119-143 | each refreshed deposit keeps its reserve and amount and is valued at its reserve's market price of its liquidity |
| Offchain.DepositsThresholdsOrdered | token-lending/sdk/src/offchain_utils.rs:129-142 | with ordered thresholds, the loop's unhealthy value ≤ super-unhealthy value ≤ deposited value |
| Offchain.ThresholdPart | token-lending/sdk/src/offchain_utils.rs:129-142 | a deposit's market value times its reserve's threshold, rounded down, at most 2.55 times the value |
| Offchain.ThresholdValuesOrdered | token-lending/sdk/src/offchain_utils.rs:129-142 | with ordered thresholds the summed unhealthy value is at most the super-unhealthy value, which is at most the summed market value |
| Offchain.RefreshBorrow | token-lending/sdk/src/offchain_utils.rs:147-156 | the first error of the accrual or the valuation, else success exactly when the weighted value and the sum fit; the borrow accrues to its reserve's cumulative rate and is valued at its reserve's market price; it keeps its reserve and owes no less; the borrowed value grows by its market value times the borrow weight, so by at least the market value |
| Offchain.BorrowPart | token-lending/sdk/src/offchain_utils.rs:154-156 | a borrow's market value times its reserve's borrow weight, rounded down: at least the market value, and exactly it without added weight |
| Offchain.BorrowsErrorPersists | token-lending/sdk/src/offchain_utils.rs:147-175 | the borrows loop fails with its first failure |
| Offchain.BorrowsValueTotal | token-lending/sdk/src/offchain_utils.rs:147-175 | the borrowed value is the sum of the refreshed borrows' market values weighted by their reserves' borrow weights |
| Offchain.WeightedBorrowsAtLeast | token-lending/sdk/src/offchain_utils.rs:154-156 | the weighted sum is at least the plain sum of market values, and equal to it without added borrow weight |
| Offchain.BorrowsAccrued | token-lending/sdk/src/offchain_utils.rs:147-175 | each refreshed borrow keeps its reserve, carries its reserve's cumulative rate, owes no less, and is the borrow accrued by `AccrueBorrowInterest` and valued at its reserve's market price |
| Offchain.RefreshedObligation | token-lending/sdk/src/offchain_utils.rs:110-178 | defined exactly when both loops are; a deposit failure is the result; the deposits and borrows are those the two loops refresh; the deposited, unhealthy, super-unhealthy and borrowed values are the sums over them; the allowed borrow value and its upper bound are untouched |
| Offchain.RefreshedObligationValues | token-lending/sdk/src/offchain_utils.rs:110-178 | the borrowed value is at least the borrows' plain sum (equal without added weight); with ordered thresholds, unhealthy ≤ super-unhealthy ≤ deposited value |
| Offchain.RefreshObligation | token-lending/sdk/src/offchain_utils.rs:110-178 | the obligation becomes `RefreshedObligation` of its old value, or fails with its error; the allowed borrow value and its upper bound are untouched |
| Offchain.RefreshObligationDeposits | token-lending/sdk/src/offchain_utils.rs:119-143 | the loop's result is the prefix fold `RefreshDeposits` over all deposits |
| Offchain.RefreshObligationBorrows | token-lending/sdk/src/offchain_utils.rs:145-175 | the loop's result is the prefix fold `RefreshBorrows` over all borrows |

## Left out

- `get_solend_accounts_as_map` (offchain_utils.rs:25-61) fetches accounts over RPC. It is I/O and is not modelled.
- The `max_borrow_weight` bookkeeping in the borrows loop (offchain_utils.rs:145, 158-174) computes a value that is never stored or returned, so it has no effect to model.
- The rate limiter is an opaque 56-byte image. Its configuration, `RateLimiter::new` and its own pack and unpack are not part of this model. Its unpack error is not modelled.
- Decoding a rate-limiter image never fails in the model. This matches how the rate limiter is treated above.
- The `Pack::unpack` wrapper, `is_initialized` and the account-length check around `unpack_from_slice` are not modelled. `UnpackFromSlice` takes at least 619 bytes as a precondition.
- The math module (`Decimal`, `Rate`, `try_pow`, rounding) is not part of this model. It is restated in `fixed_point.dfy` from its use here.
- `LastUpdate::slots_elapsed`, `unpack_bool`, `pack_decimal`, `unpack_decimal` and the constants `SLOTS_PER_YEAR`, `PROGRAM_VERSION`, `INITIAL_COLLATERAL_RATE` and `NULL_PUBKEY` live in files that are not part of this model. They are given their upstream values.
- `Obligation::max_liquidation_amount` and `ObligationLiquidity::accrue_interest` live in obligation.rs, which is not part of this model.
  - `CalculateLiquidation` takes the first as a parameter.
  - `AccrueBorrowInterest` follows the upstream definition of the second.
- Panics become preconditions:
  - packing a scaled value above 128 bits (`Packable`);
  - an asset-type byte other than 0 or 1 when unpacking;
  - a borrow whose reserve is missing from the map in `RefreshObligation` (`BorrowReservesKnown`).
- `msg!` logging is left out.
- Reserves.CompoundFactor: for two or more slots the factor is stated as `Pow` of the per-slot factor, the math module's binary exponentiation with a rounding at every product. No closed-form bound against the exact power is proved.
- Offchain.RefreshReserveInterest and Offchain.RefreshReserve: after a failed interest accrual the cumulative borrow rate is not stated. Every other field is.
- Offchain.RefreshObligation: on failure only the error is stated, not the partly refreshed obligation. The program leaves that state to be discarded. On success the whole new state is stated.
- Offchain.RefreshObligationDeposits: on failure the partly refreshed deposits are not stated.
- Offchain.RefreshObligationBorrows: on failure the partly refreshed borrows are not stated.
- The program's `HashMap` arguments are Dafny `map`s. Iteration order does not matter because only lookups are made.
