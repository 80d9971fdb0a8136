/// The parts of an obligation (a user's position: collateral deposited in
/// reserves and liquidity borrowed from them) that the reserve calculations
/// and the off-chain refresh read or write. The obligation module itself is
/// not part of this model; these records carry only the fields used here.
module Obligations {
  import opened FixedPoint

  /// One deposit of an obligation: collateral tokens of one reserve.
  datatype ObligationCollateral = ObligationCollateral(
    deposit_reserve: Pubkey,
    deposited_amount: u64,
    market_value: Decimal)

  /// One borrow of an obligation: debt owed to one reserve, with the
  /// reserve's cumulative borrow rate at the last accrual.
  datatype ObligationLiquidity = ObligationLiquidity(
    borrow_reserve: Pubkey,
    cumulative_borrow_rate_wads: Decimal,
    borrowed_amount_wads: Decimal,
    market_value: Decimal)

  /// The fields of an obligation the off-chain refresh reads or writes.
  datatype ObligationState = ObligationState(
    deposits: seq<ObligationCollateral>,
    borrows: seq<ObligationLiquidity>,
    deposited_value: Decimal,
    borrowed_value: Decimal,
    allowed_borrow_value: Decimal,
    borrowed_value_upper_bound: Decimal,
    unhealthy_borrow_value: Decimal,
    super_unhealthy_borrow_value: Decimal)

  /// The three values a liquidation bonus depends on.
  datatype ObligationHealth = ObligationHealth(
    borrowed_value: Decimal,
    unhealthy_borrow_value: Decimal,
    super_unhealthy_borrow_value: Decimal)

  /// `ObligationLiquidity::accrue_interest`: brings a borrow up to the
  /// reserve's cumulative borrow rate, growing the debt by the ratio of the
  /// new rate to the recorded one. A rate below the recorded one is refused.
  function AccrueBorrowInterest(b: ObligationLiquidity, cumulativeRate: Decimal)
    : (r: Result<ObligationLiquidity>)
    ensures cumulativeRate < b.cumulative_borrow_rate_wads ==> r == Err(NegativeInterestRate)
    ensures cumulativeRate == b.cumulative_borrow_rate_wads ==> r == Ok(b)
    ensures r.Err? ==> r.error == NegativeInterestRate || r.error == MathOverflow
    ensures r.Ok? ==> r.value.cumulative_borrow_rate_wads == cumulativeRate
    ensures r.Ok? ==> r.value.(borrowed_amount_wads := b.borrowed_amount_wads,
                               cumulative_borrow_rate_wads := b.cumulative_borrow_rate_wads) == b
    ensures r.Ok? ==> r.value.borrowed_amount_wads >= b.borrowed_amount_wads
    // for a higher rate: defined exactly when the ratio of the rates fits a
    // `Rate` and the grown debt fits a `Decimal`
    ensures cumulativeRate > b.cumulative_borrow_rate_wads ==>
      (r.Ok? <==> b.cumulative_borrow_rate_wads > 0 && cumulativeRate * WAD <= U192_MAX &&
                  (var ratio := cumulativeRate * WAD / b.cumulative_borrow_rate_wads;
                   ratio <= U128_MAX && b.borrowed_amount_wads * ratio <= U192_MAX))
    // and the debt becomes `debt * new / old`, short by at most the two
    // roundings (of the ratio and of the product)
    ensures r.Ok? && cumulativeRate > b.cumulative_borrow_rate_wads ==>
      r.value.borrowed_amount_wads * WAD * b.cumulative_borrow_rate_wads
        <= cumulativeRate * WAD * b.borrowed_amount_wads
      && cumulativeRate * WAD * b.borrowed_amount_wads
        < ((r.value.borrowed_amount_wads + 1) * WAD + b.borrowed_amount_wads) * b.cumulative_borrow_rate_wads
  {
    if cumulativeRate < b.cumulative_borrow_rate_wads then
      Err(NegativeInterestRate)
    else if cumulativeRate == b.cumulative_borrow_rate_wads then
      Ok(b)
    else
      var ratio :- DDiv(cumulativeRate, b.cumulative_borrow_rate_wads);
      var compounded :- ToRate(ratio);
      var grown :- DMul(b.borrowed_amount_wads, compounded);
      GrowthAtLeastOne(cumulativeRate, b.cumulative_borrow_rate_wads, compounded);
      GrowsByFactor(b.borrowed_amount_wads, compounded, grown);
      TwoStepScale(cumulativeRate, b.cumulative_borrow_rate_wads, b.borrowed_amount_wads, compounded, grown);
      assert compounded * b.borrowed_amount_wads == b.borrowed_amount_wads * compounded;
      Ok(b.(borrowed_amount_wads := grown, cumulative_borrow_rate_wads := cumulativeRate))
  }

  /// The ratio of a larger rate to a smaller one is at least one.
  lemma GrowthAtLeastOne(newRate: nat, oldRate: nat, ratio: nat)
    requires 0 < oldRate < newRate
    requires ratio * oldRate <= newRate * WAD < (ratio + 1) * oldRate
    ensures ratio >= WAD
  {
    MulLe(oldRate, newRate, WAD);
    MulLtCancel(WAD, ratio + 1, oldRate);
  }
}
