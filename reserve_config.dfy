/// A reserve's configuration: its type, its fee schedule and the range checks
/// every configuration must pass.
module ReserveConfigs {
  import opened FixedPoint

  /// Percentage a liquidator may take from an obligation's borrowed value.
  const LIQUIDATION_CLOSE_FACTOR: u8 := 20
  /// Obligation borrow amount that is small enough to close out.
  const LIQUIDATION_CLOSE_AMOUNT: u64 := 2
  /// Maximum quote currency value that can be liquidated in one go.
  const MAX_LIQUIDATABLE_VALUE_AT_ONCE: u64 := 500_000
  /// Cap on the liquidation bonus, as a percentage.
  const MAX_BONUS_PCT: u8 := 25
  /// Cap on the protocol's cut of a liquidation, in deca basis points.
  const MAX_PROTOCOL_LIQUIDATION_FEE_DECA_BPS: u8 := 50

  datatype ReserveType = Regular | Isolated

  /// The name the derived `Debug` gives each variant.
  function ReserveTypeName(t: ReserveType): string
  {
    match t
    case Regular => "Regular"
    case Isolated => "Isolated"
  }

  /// `ReserveType::from_str`: only the two exact variant names parse.
  function ReserveTypeFromStr(input: string): (r: Result<ReserveType>)
    ensures r.Ok? <==> input == "Regular" || input == "Isolated"
    ensures r.Ok? ==> ReserveTypeName(r.value) == input
    ensures r.Err? ==> r.error == InvalidConfig
  {
    if input == "Regular" then Ok(Regular)
    else if input == "Isolated" then Ok(Isolated)
    else Err(InvalidConfig)
  }

  /// Parsing inverts naming.
  lemma ReserveTypeNameParses(t: ReserveType)
    ensures ReserveTypeFromStr(ReserveTypeName(t)) == Ok(t)
  {
    match t
    case Regular =>
    case Isolated =>
      assert ReserveTypeName(t) != "Regular";
  }

  /// Whether a fee is added on top of an amount or taken out of it.
  datatype FeeCalculation = Exclusive | Inclusive

  datatype ReserveFees = ReserveFees(
    borrow_fee_wad: u64,
    flash_loan_fee_wad: u64,
    host_fee_percentage: u8)

  /// The fewest tokens a charged fee may be: one for the owner, plus one
  /// for the host when the host takes a share.
  function MinimumFee(fees: ReserveFees): (n: nat)
    ensures n == 1 || n == 2
    ensures n == 2 <==> FromPercent(fees.host_fee_percentage) > 0
  {
    if fees.host_fee_percentage > 0 then 2 else 1
  }

  /// The fee owed on `amount` at `fee_wad` (a scaled rate), as the pair
  /// (total fee, host's share), both in whole tokens. The fee is the larger
  /// of `FeeAmount` and the minimum fee, rounded half up, and must stay
  /// below the amount.
  function CalculateFees(fees: ReserveFees, amount: Decimal, fee_wad: u64, calculation: FeeCalculation)
    : (r: Result<(u64, u64)>)
    // no fee rate or nothing borrowed: no fee at all
    ensures fee_wad == 0 || amount == 0 ==> r == Ok((0, 0))
    // otherwise the fee is the computed fee, raised to the minimum, rounded
    // half up, and the host's share is taken from that unrounded fee
    ensures fee_wad > 0 && amount > 0 && r.Ok? ==>
              var base := FeeAmount(amount, fee_wad, calculation);
              && base.Ok?
              && r.value.0 * WAD <= Max(base.value, MinimumFee(fees) * WAD) + HALF_WAD < (r.value.0 + 1) * WAD
              && HostFee(Max(base.value, MinimumFee(fees) * WAD), FromPercent(fees.host_fee_percentage))
                 == Ok(r.value.1)
    // an amount the fee would swallow is refused, and only such an amount
    ensures fee_wad > 0 && amount > 0 ==>
              var base := FeeAmount(amount, fee_wad, calculation);
              (r == Err(BorrowTooSmall) <==> base.Ok? && Max(base.value, MinimumFee(fees) * WAD) >= amount)
    ensures fee_wad > 0 && 0 < amount <= MinimumFee(fees) * WAD ==> r == Err(BorrowTooSmall)
    // an overflowing fee fails; a fee below the amount is charged exactly
    // when it and the host's share round into 64 bits
    ensures fee_wad > 0 && amount > 0 && FeeAmount(amount, fee_wad, calculation).Err? ==> r == Err(MathOverflow)
    ensures fee_wad > 0 && amount > 0 ==>
              var base := FeeAmount(amount, fee_wad, calculation);
              base.Ok? && Max(base.value, MinimumFee(fees) * WAD) < amount ==>
                (r.Ok? <==> Round(Max(base.value, MinimumFee(fees) * WAD)).Ok?
                            && HostFee(Max(base.value, MinimumFee(fees) * WAD), FromPercent(fees.host_fee_percentage)).Ok?)
    // a charged fee is at least one token for the owner, plus one for a host
    ensures r.Ok? && fee_wad > 0 && amount > 0 ==> r.value.0 >= MinimumFee(fees)
    ensures r.Ok? && fee_wad > 0 && amount > 0 && fees.host_fee_percentage > 0 ==> r.value.1 >= 1
    ensures r.Ok? && fees.host_fee_percentage == 0 ==> r.value.1 == 0
    // the host's share never exceeds the fee, and is all of it at 100%
    ensures r.Ok? && fees.host_fee_percentage <= 100 ==> r.value.1 <= r.value.0
    ensures r.Ok? && fees.host_fee_percentage == 100 ==> r.value.1 == r.value.0
    // the rounded fee stays below the amount (by less than half a token of rounding)
    ensures r.Ok? && r.value.0 > 0 ==> r.value.0 * WAD < amount + HALF_WAD
    ensures r.Err? ==> r.error == BorrowTooSmall || r.error == MathOverflow
  {
    var hostRate := FromPercent(fees.host_fee_percentage);
    if fee_wad > 0 && amount > 0 then
      var minimumFee := MinimumFee(fees);
      assert amount <= minimumFee * WAD ==> FeeAmount(amount, fee_wad, calculation).Ok? by {
        if amount <= minimumFee * WAD { FeeAmountOfSmallAmount(amount, fee_wad, calculation); }
      }
      var feeAmount :- FeeAmount(amount, fee_wad, calculation);
      var feeDecimal: Decimal := Max(feeAmount, minimumFee * WAD);
      if feeDecimal >= amount then
        Err(BorrowTooSmall)
      else
        var fee :- Round(feeDecimal);
        var hostFee :- HostFee(feeDecimal, hostRate);
        assert fee >= minimumFee by { FeeAtLeast(feeDecimal, minimumFee, fee); }
        HostFeeBounds(feeDecimal, hostRate, fee);
        Ok((fee, hostFee))
    else
      Ok((0, 0))
  }

  /// `rate / (rate + 1)` in 128-bit arithmetic, rounded down: the part of
  /// an amount that is fee when the fee is included in the amount. Neither
  /// step can overflow for a 64-bit rate.
  function InclusiveRate(feeRate: u64): (q: Rate)
    ensures q * (feeRate + WAD) <= feeRate * WAD < (q + 1) * (feeRate + WAD)
    ensures q < WAD
  {
    MulLe(feeRate, U64_MAX, WAD);
    var denominator := RAdd(feeRate, WAD).value;
    var q := RDiv(feeRate, denominator).value;
    MulLe(feeRate, feeRate + WAD, WAD);
    MulLtCancel(q, WAD, feeRate + WAD);
    q
  }

  /// The unrounded fee: `amount * rate` when added on top of the amount,
  /// and `amount * rate / (1 + rate)` when taken out of it, each rounded
  /// down (the second one twice).
  function FeeAmount(amount: Decimal, feeRate: u64, calculation: FeeCalculation): (r: Result<Decimal>)
    ensures r.Err? ==> r.error == MathOverflow
    ensures calculation == Exclusive ==>
              && (r.Ok? <==> amount * feeRate <= U192_MAX)
              && (r.Ok? ==> r.value * WAD <= amount * feeRate < (r.value + 1) * WAD)
    ensures calculation == Inclusive ==>
              && (r.Ok? <==> amount * InclusiveRate(feeRate) <= U192_MAX)
              && (r.Ok? ==> r.value * (WAD + feeRate) <= amount * feeRate
                            && amount * feeRate * WAD < ((r.value + 1) * WAD + amount) * (WAD + feeRate))
  {
    match calculation
    case Exclusive => DMul(amount, feeRate)
    case Inclusive =>
      var q := InclusiveRate(feeRate);
      var fee :- DMul(amount, q);
      InclusiveFeeBounds(amount, feeRate, q, fee);
      Ok(fee)
  }

  /// The two roundings of the inclusive fee: below `amount * rate / (1 +
  /// rate)`, and short of it by less than one unit plus one unit per token.
  lemma InclusiveFeeBounds(amount: nat, feeRate: nat, q: nat, fee: nat)
    requires q * (feeRate + WAD) <= feeRate * WAD < (q + 1) * (feeRate + WAD)
    requires fee * WAD <= amount * q < (fee + 1) * WAD
    ensures fee * (WAD + feeRate) <= amount * feeRate
    ensures amount * feeRate * WAD < ((fee + 1) * WAD + amount) * (WAD + feeRate)
  {
    ScaledRatioBounds(amount, feeRate, q, fee, WAD, WAD + feeRate);
  }

  /// `InclusiveFeeBounds` over an abstract scale `w` and divisor `d`.
  lemma ScaledRatioBounds(amount: nat, f: nat, q: nat, fee: nat, w: nat, d: nat)
    requires w > 0 && d > 0
    requires q * d <= f * w < (q + 1) * d
    requires fee * w <= amount * q < (fee + 1) * w
    ensures fee * d <= amount * f
    ensures amount * f * w < ((fee + 1) * w + amount) * d
  {
    MulLe(fee * w, amount * q, d);
    MulLe(q * d, f * w, amount);
    assert fee * d * w <= amount * f * w by {
      assert fee * w * d == fee * d * w;
      assert amount * q * d == q * d * amount;
      assert f * w * amount == amount * f * w;
    }
    MulLtCancel(fee * d, amount * f + 1, w);
    MulLe(f * w, (q + 1) * d, amount);
    assert amount * f * w <= amount * q * d + amount * d by {
      assert (q + 1) * d * amount == amount * q * d + amount * d;
      assert f * w * amount == amount * f * w;
    }
    MulLtMono(amount * q, (fee + 1) * w, d);
    assert ((fee + 1) * w + amount) * d == (fee + 1) * w * d + amount * d;
  }

  lemma FeeAmountOfSmallAmount(amount: Decimal, feeRate: u64, calculation: FeeCalculation)
    requires amount <= 2 * WAD
    ensures FeeAmount(amount, feeRate, calculation).Ok?
  {
    MulLe(amount, 2 * WAD, feeRate);
    if calculation.Inclusive? {
      var q := InclusiveRate(feeRate);
      MulLe(amount, 2 * WAD, q);
      MulLe(q, WAD, 2 * WAD);
    }
  }

  /// The host's share: the fee times the host percentage, rounded half up,
  /// and at least one token when the host takes anything.
  function HostFee(feeDecimal: Decimal, hostRate: Decimal): (r: Result<u64>)
    ensures r.Err? ==> r.error == MathOverflow
    ensures r.Ok? && hostRate > 0 ==> r.value >= 1
    ensures hostRate == 0 ==> r == Ok(0)
    // a share is defined exactly when the product fits and its rounding
    // fits 64 bits
    ensures hostRate > 0 ==>
              (r.Ok? <==> feeDecimal * hostRate <= U192_MAX
                          && feeDecimal * hostRate / WAD + HALF_WAD < (U64_MAX + 1) * WAD)
    // the rounded share: below it by at most half a token, unless raised to one
    ensures r.Ok? && hostRate > 0 ==>
              && feeDecimal * hostRate + HALF_WAD * WAD < (r.value + 1) * (WAD * WAD)
              && (r.value == 1 || r.value * (WAD * WAD) <= feeDecimal * hostRate + HALF_WAD * WAD)
  {
    if hostRate > 0 then
      var share :- DMul(feeDecimal, hostRate);
      var rounded :- Round(share);
      RoundedShareBounds(feeDecimal * hostRate, share, rounded);
      Ok(Max(rounded, 1))
    else
      Ok(0)
  }

  /// A product rounded down to a scaled value and then rounded half up to
  /// whole tokens is within half a token of the product.
  lemma RoundedShareBounds(x: nat, share: nat, n: nat)
    requires share * WAD <= x < (share + 1) * WAD
    requires n * WAD <= share + HALF_WAD < (n + 1) * WAD
    ensures x + HALF_WAD * WAD < (n + 1) * (WAD * WAD)
    ensures n * (WAD * WAD) <= x + HALF_WAD * WAD
  {
    MulLe(n * WAD, share + HALF_WAD, WAD);
    MulLe(share + 1 + HALF_WAD, (n + 1) * WAD, WAD);
  }

  lemma FeeAtLeast(feeDecimal: Decimal, minimumFee: nat, fee: u64)
    requires feeDecimal >= minimumFee * WAD
    requires fee * WAD <= feeDecimal + HALF_WAD < (fee + 1) * WAD
    ensures fee >= minimumFee
  {
    assert minimumFee * WAD < (fee + 1) * WAD;
    MulLtCancel(minimumFee, fee + 1, WAD);
  }

  lemma RoundLe(a: Decimal, b: Decimal, ra: u64, rb: u64)
    requires a <= b
    requires ra * WAD <= a + HALF_WAD < (ra + 1) * WAD
    requires rb * WAD <= b + HALF_WAD < (rb + 1) * WAD
    ensures ra <= rb
  {
    assert ra * WAD < (rb + 1) * WAD;
    MulLtCancel(ra, rb + 1, WAD);
  }

  lemma HostFeeBounds(feeDecimal: Decimal, hostRate: Decimal, fee: u64)
    requires fee * WAD <= feeDecimal + HALF_WAD < (fee + 1) * WAD
    requires fee >= 2 || hostRate == 0
    requires HostFee(feeDecimal, hostRate).Ok?
    ensures hostRate <= WAD ==> HostFee(feeDecimal, hostRate).value <= fee
    ensures hostRate == WAD ==> HostFee(feeDecimal, hostRate).value == fee
  {
    if hostRate > 0 && hostRate <= WAD {
      var share := DMul(feeDecimal, hostRate).value;
      var rounded := Round(share).value;
      MulAtMostOne(feeDecimal, hostRate);
      RoundLe(share, feeDecimal, rounded, fee);
      if hostRate == WAD {
        assert feeDecimal * WAD / WAD == feeDecimal;
        assert share == feeDecimal;
      }
    }
  }

  /// `calculate_borrow_fees`: the borrow fee schedule.
  function CalculateBorrowFees(fees: ReserveFees, amount: Decimal, calculation: FeeCalculation)
    : (r: Result<(u64, u64)>)
    ensures r == CalculateFees(fees, amount, fees.borrow_fee_wad, calculation)
    ensures fees.borrow_fee_wad == 0 ==> r == Ok((0, 0))
    ensures r.Ok? && fees.host_fee_percentage <= 100 ==> r.value.1 <= r.value.0
  {
    CalculateFees(fees, amount, fees.borrow_fee_wad, calculation)
  }

  /// `calculate_flash_loan_fees`: returns (origination fee, host fee), which
  /// together make up the exclusive flash-loan fee.
  function CalculateFlashLoanFees(fees: ReserveFees, amount: Decimal): (r: Result<(u64, u64)>)
    ensures r.Ok? ==> CalculateFees(fees, amount, fees.flash_loan_fee_wad, Exclusive) ==
                        Ok((r.value.0 + r.value.1, r.value.1))
    ensures fees.host_fee_percentage <= 100 ==>
              (r.Ok? <==> CalculateFees(fees, amount, fees.flash_loan_fee_wad, Exclusive).Ok?)
    ensures r.Ok? && fees.host_fee_percentage == 100 ==> r.value.0 == 0
  {
    var split :- CalculateFees(fees, amount, fees.flash_loan_fee_wad, Exclusive);
    if split.1 > split.0 then Err(MathOverflow) else Ok((split.0 - split.1, split.1))
  }

  datatype ReserveConfig = ReserveConfig(
    optimal_utilization_rate: u8,
    max_utilization_rate: u8,
    loan_to_value_ratio: u8,
    liquidation_bonus: u8,
    max_liquidation_bonus: u8,
    liquidation_threshold: u8,
    max_liquidation_threshold: u8,
    min_borrow_rate: u8,
    optimal_borrow_rate: u8,
    max_borrow_rate: u8,
    super_max_borrow_rate: u64,
    fees: ReserveFees,
    deposit_limit: u64,
    borrow_limit: u64,
    fee_receiver: Pubkey,
    protocol_liquidation_fee: u8,
    protocol_take_rate: u8,
    added_borrow_weight_bps: u64,
    reserve_type: ReserveType)

  /// Every range the program requires of a configuration, stated as one
  /// conjunction.
  predicate ValidConfig(c: ReserveConfig)
  {
    && c.optimal_utilization_rate <= c.max_utilization_rate <= 100
    && c.loan_to_value_ratio < 100
    && c.liquidation_bonus <= c.max_liquidation_bonus <= 100
    && c.loan_to_value_ratio <= c.liquidation_threshold <= c.max_liquidation_threshold <= 100
    && c.min_borrow_rate <= c.optimal_borrow_rate <= c.max_borrow_rate <= c.super_max_borrow_rate
    && c.fees.borrow_fee_wad < WAD
    && c.fees.host_fee_percentage <= 100
    && c.protocol_liquidation_fee <= MAX_PROTOCOL_LIQUIDATION_FEE_DECA_BPS
    && c.max_liquidation_bonus * 100 + c.protocol_liquidation_fee * 10 <= MAX_BONUS_PCT * 100
    && c.protocol_take_rate <= 100
    && (c.reserve_type == Isolated ==> c.loan_to_value_ratio == 0 && c.liquidation_threshold == 0)
  }

  /// `validate_reserve_config`: the checks in the program's order, each
  /// failing with `InvalidConfig`.
  function ValidateReserveConfig(c: ReserveConfig): (r: Outcome)
    ensures r.Pass? <==> ValidConfig(c)
    ensures r.Fail? ==> r.error == InvalidConfig
  {
    if c.optimal_utilization_rate > 100 then Fail(InvalidConfig)
    else if c.max_utilization_rate < c.optimal_utilization_rate || c.max_utilization_rate > 100 then
      Fail(InvalidConfig)
    else if c.loan_to_value_ratio >= 100 then Fail(InvalidConfig)
    else if c.liquidation_bonus > 100 then Fail(InvalidConfig)
    else if c.max_liquidation_bonus < c.liquidation_bonus || c.max_liquidation_bonus > 100 then
      Fail(InvalidConfig)
    else if c.liquidation_threshold < c.loan_to_value_ratio || c.liquidation_threshold > 100 then
      Fail(InvalidConfig)
    else if c.max_liquidation_threshold < c.liquidation_threshold
            || c.max_liquidation_threshold > 100 then
      Fail(InvalidConfig)
    else if c.optimal_borrow_rate < c.min_borrow_rate then Fail(InvalidConfig)
    else if c.optimal_borrow_rate > c.max_borrow_rate then Fail(InvalidConfig)
    else if c.super_max_borrow_rate < c.max_borrow_rate then Fail(InvalidConfig)
    else if c.fees.borrow_fee_wad >= WAD then Fail(InvalidConfig)
    else if c.fees.host_fee_percentage > 100 then Fail(InvalidConfig)
    else if c.protocol_liquidation_fee > MAX_PROTOCOL_LIQUIDATION_FEE_DECA_BPS then
      Fail(InvalidConfig)
    else if c.max_liquidation_bonus * 100 + c.protocol_liquidation_fee * 10 > MAX_BONUS_PCT * 100 then
      Fail(InvalidConfig)
    else if c.protocol_take_rate > 100 then Fail(InvalidConfig)
    else if c.reserve_type == Isolated
            && !(c.loan_to_value_ratio == 0 && c.liquidation_threshold == 0) then
      Fail(InvalidConfig)
    else
      Pass
  }
}
