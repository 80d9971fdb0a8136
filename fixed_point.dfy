/// Fixed-point numbers of the lending program's math module. A `Decimal`
/// (192-bit) and a `Rate` (128-bit) are both unsigned integers scaled by
/// WAD = 10^18; every operation is checked and reports `MathOverflow` when
/// its intermediate or final value leaves the width, or on division by zero.
/// Multiplication and division round down.
module FixedPoint {

  /// 10^18, the scaled representation of one.
  const WAD: nat := 1_000_000_000_000_000_000
  const HALF_WAD: nat := 500_000_000_000_000_000
  /// One percent, one basis point and ten basis points as scaled values.
  const PERCENT_SCALER: nat := 10_000_000_000_000_000
  const BPS_SCALER: nat := 100_000_000_000_000
  const DECA_BPS_SCALER: nat := 1_000_000_000_000_000

  const U64_MAX: nat := 0xFFFF_FFFF_FFFF_FFFF
  const U128_MAX: nat := 0xFFFF_FFFF_FFFF_FFFF_FFFF_FFFF_FFFF_FFFF
  const U192_MAX: nat := 0xFFFF_FFFF_FFFF_FFFF_FFFF_FFFF_FFFF_FFFF_FFFF_FFFF_FFFF_FFFF

  type Byte = x: int | 0 <= x < 0x100
  type u8 = x: int | 0 <= x < 0x100
  type u64 = x: int | 0 <= x <= 0xFFFF_FFFF_FFFF_FFFF
  /// The scaled value of a `Decimal` (a U192 internally).
  type Decimal = x: int | 0 <= x <= 0xFFFF_FFFF_FFFF_FFFF_FFFF_FFFF_FFFF_FFFF_FFFF_FFFF_FFFF_FFFF
  /// The scaled value of a `Rate` (a U128 internally).
  type Rate = x: int | 0 <= x <= 0xFFFF_FFFF_FFFF_FFFF_FFFF_FFFF_FFFF_FFFF
  /// A 32-byte account address.
  type Pubkey = s: seq<Byte> | |s| == 32 witness seq(32, _ => 0)

  /// The errors the reserve code can return: `LendingError` variants, the two
  /// `ProgramError`s it uses, and the off-chain "No price" error.
  datatype Error =
    | MathOverflow
    | InsufficientLiquidity
    | BorrowTooSmall
    | BorrowTooLarge
    | ObligationHealthy
    | InvalidConfig
    | LiquidationTooSmall
    | NegativeInterestRate
    | InvalidAccountData
    | Custom(code: nat)
    | NoPrice

  datatype Result<T> = Ok(value: T) | Err(error: Error) {
    predicate IsFailure() { Err? }
    function PropagateFailure<U>(): Result<U>
      requires Err?
    {
      Err(error)
    }
    function Extract(): T
      requires Ok?
    {
      value
    }
  }

  /// The result of an operation that returns nothing on success.
  datatype Outcome = Pass | Fail(error: Error)

  datatype Option<T> = None | Some(value: T)

  function Min(a: int, b: int): int { if a <= b then a else b }
  function Max(a: int, b: int): int { if a >= b then a else b }

  // ----- conversions ------------------------------------------------------

  function FromU64(v: u64): (d: Decimal)
    ensures d / WAD == v && d % WAD == 0
  {
    v * WAD
  }

  function FromPercent(p: u8): (d: Decimal)
    ensures d == p * PERCENT_SCALER
    ensures d <= 255 * PERCENT_SCALER
  {
    p * PERCENT_SCALER
  }

  function FromPercentU64(p: u64): (r: Rate)
    ensures r == p * PERCENT_SCALER
  {
    p * PERCENT_SCALER
  }

  function FromBps(b: u64): (d: Decimal)
    ensures d <= U64_MAX * BPS_SCALER
  {
    b * BPS_SCALER
  }

  function FromDecaBps(b: u8): (d: Decimal)
    ensures d < WAD
  {
    b * DECA_BPS_SCALER
  }

  /// `Rate::try_from(Decimal)`: fails when the value does not fit in 128 bits.
  function ToRate(d: Decimal): (r: Result<Rate>)
    ensures r.Err? ==> r.error == MathOverflow
    ensures r.Ok? <==> d <= U128_MAX
    ensures r.Ok? ==> r.value == d
  {
    if d <= U128_MAX then Ok(d) else Err(MathOverflow)
  }

  // ----- Decimal arithmetic -----------------------------------------------

  function DAdd(a: Decimal, b: Decimal): (r: Result<Decimal>)
    ensures r.Err? ==> r.error == MathOverflow
    ensures r.Ok? <==> a + b <= U192_MAX
    ensures r.Ok? ==> r.value == a + b
  {
    if a + b <= U192_MAX then Ok(a + b) else Err(MathOverflow)
  }

  function DSub(a: Decimal, b: Decimal): (r: Result<Decimal>)
    ensures r.Err? ==> r.error == MathOverflow
    ensures r.Ok? <==> b <= a
    ensures r.Ok? ==> r.value == a - b
  {
    if b <= a then Ok(a - b) else Err(MathOverflow)
  }

  /// a * b rounded down; the unscaled product must fit in 192 bits.
  function DMul(a: Decimal, b: Decimal): (r: Result<Decimal>)
    ensures r.Err? ==> r.error == MathOverflow
    ensures r.Ok? <==> a * b <= U192_MAX
    ensures r.Ok? ==> r.value * WAD <= a * b < (r.value + 1) * WAD
  {
    if a * b <= U192_MAX then
      DivBelow(a * b, WAD);
      Ok(a * b / WAD)
    else
      Err(MathOverflow)
  }

  /// a / b rounded down; fails on a zero divisor or when a * WAD overflows.
  function DDiv(a: Decimal, b: Decimal): (r: Result<Decimal>)
    ensures r.Err? ==> r.error == MathOverflow
    ensures r.Ok? <==> b != 0 && a * WAD <= U192_MAX
    ensures r.Ok? ==> r.value * b <= a * WAD < (r.value + 1) * b
  {
    if a * WAD <= U192_MAX && b != 0 then
      DivBelow(a * WAD, b);
      Ok(a * WAD / b)
    else
      Err(MathOverflow)
  }

  /// Multiplication by a plain integer (`try_mul(u64)`).
  function DMulInt(a: Decimal, n: nat): (r: Result<Decimal>)
    ensures r.Err? ==> r.error == MathOverflow
    ensures r.Ok? <==> a * n <= U192_MAX
    ensures r.Ok? ==> r.value == a * n
  {
    if a * n <= U192_MAX then Ok(a * n) else Err(MathOverflow)
  }

  /// `try_floor_u64`: the integer part, which must fit in 64 bits.
  function Floor(a: Decimal): (r: Result<u64>)
    ensures r.Err? ==> r.error == MathOverflow
    ensures r.Ok? <==> a / WAD <= U64_MAX
    ensures r.Ok? ==> r.value * WAD <= a < (r.value + 1) * WAD
  {
    if a / WAD <= U64_MAX then Ok(a / WAD) else Err(MathOverflow)
  }

  /// `try_ceil_u64`: the smallest integer not below `a`.
  function Ceil(a: Decimal): (r: Result<u64>)
    ensures r.Err? ==> r.error == MathOverflow
    ensures r.Ok? <==> a <= U64_MAX * WAD
    ensures r.Ok? ==> a <= r.value * WAD < a + WAD
  {
    if a + (WAD - 1) > U192_MAX then Err(MathOverflow)
    else if (a + (WAD - 1)) / WAD > U64_MAX then Err(MathOverflow)
    else Ok((a + (WAD - 1)) / WAD)
  }

  /// `try_round_u64`: rounds half up.
  function Round(a: Decimal): (r: Result<u64>)
    ensures r.Err? ==> r.error == MathOverflow
    ensures r.Ok? <==> a + HALF_WAD < (U64_MAX + 1) * WAD
    ensures r.Ok? ==> r.value * WAD <= a + HALF_WAD < (r.value + 1) * WAD
  {
    if a + HALF_WAD > U192_MAX then Err(MathOverflow)
    else if (a + HALF_WAD) / WAD > U64_MAX then Err(MathOverflow)
    else Ok((a + HALF_WAD) / WAD)
  }

  // ----- Rate arithmetic (128-bit) ----------------------------------------

  function RAdd(a: Rate, b: Rate): (r: Result<Rate>)
    ensures r.Err? ==> r.error == MathOverflow
    ensures r.Ok? <==> a + b <= U128_MAX
    ensures r.Ok? ==> r.value == a + b
  {
    if a + b <= U128_MAX then Ok(a + b) else Err(MathOverflow)
  }

  function RSub(a: Rate, b: Rate): (r: Result<Rate>)
    ensures r.Err? ==> r.error == MathOverflow
    ensures r.Ok? <==> b <= a
    ensures r.Ok? ==> r.value == a - b
  {
    if b <= a then Ok(a - b) else Err(MathOverflow)
  }

  function RMul(a: Rate, b: Rate): (r: Result<Rate>)
    ensures r.Err? ==> r.error == MathOverflow
    ensures r.Ok? <==> a * b <= U128_MAX
    ensures r.Ok? ==> r.value * WAD <= a * b < (r.value + 1) * WAD
  {
    if a * b <= U128_MAX then
      DivBelow(a * b, WAD);
      Ok(a * b / WAD)
    else
      Err(MathOverflow)
  }

  function RDiv(a: Rate, b: Rate): (r: Result<Rate>)
    ensures r.Err? ==> r.error == MathOverflow
    ensures r.Ok? <==> b != 0 && a * WAD <= U128_MAX
    ensures r.Ok? ==> r.value * b <= a * WAD < (r.value + 1) * b
  {
    if a * WAD <= U128_MAX && b != 0 then
      DivBelow(a * WAD, b);
      Ok(a * WAD / b)
    else
      Err(MathOverflow)
  }

  /// Division by a plain integer (`try_div(u64)`).
  function RDivInt(a: Rate, n: nat): (r: Result<Rate>)
    ensures r.Err? ==> r.error == MathOverflow
    ensures r.Ok? <==> n != 0
    ensures r.Ok? ==> r.value * n <= a < (r.value + 1) * n
  {
    if n != 0 then
      DivBelow(a, n);
      Ok(a / n)
    else
      Err(MathOverflow)
  }

  /// `Rate::try_pow`: binary exponentiation in which the base is squared on
  /// every round, starting from `base` for an odd exponent and one otherwise.
  function Pow(base: Rate, exp: nat): (r: Result<Rate>)
    ensures r.Err? ==> r.error == MathOverflow
    ensures exp == 0 ==> r == Ok(WAD)
    // the base is squared once more than the exponent needs, so even the
    // first power fails when that square does not fit
    ensures exp == 1 ==> (r.Ok? <==> base * base <= U128_MAX) && (r.Ok? ==> r.value == base)
    // one to any power is one
    ensures base == WAD ==> r == Ok(WAD)
  {
    PowLoop(base, exp, if exp % 2 != 0 then base else WAD)
  }

  function PowLoop(base: Rate, exp: nat, acc: Rate): (r: Result<Rate>)
    ensures r.Err? ==> r.error == MathOverflow
    ensures base == WAD && acc == WAD ==> r == Ok(WAD)
    decreases exp
  {
    if exp == 0 then Ok(acc)
    else
      var e := exp / 2;
      var b :- RMul(base, base);
      var a :- if e % 2 != 0 then RMul(acc, b) else Ok(acc);
      PowLoop(b, e, a)
  }

  // ----- arithmetic facts -------------------------------------------------

  lemma DivBelow(a: nat, d: nat)
    requires d > 0
    ensures (a / d) * d <= a < (a / d + 1) * d
    ensures a / d <= a
  {
    var q, r := a / d, a % d;
    assert a == q * d + r;
    MulLe(1, d, q);
  }

  /// Monotonicity of multiplication in its first factor.
  lemma MulLe(a: nat, b: nat, c: nat)
    requires a <= b
    ensures a * c <= b * c
  {
  }

  /// Cancelling a positive factor from a strict inequality.
  lemma MulLtCancel(x: nat, y: nat, d: nat)
    requires d > 0 && x * d < y * d
    ensures x < y
  {
  }

  /// Strict monotonicity of multiplication by a positive factor.
  lemma MulLtMono(a: nat, b: nat, c: nat)
    requires a < b && c > 0
    ensures a * c < b * c
  {
    MulLe(a + 1, b, c);
  }

  /// Dividing `part` by `whole` to a scaled weight and scaling `range` by
  /// it, rounding down each time, is `range * part / whole` up to the two
  /// roundings.
  lemma TwoStepScale(part: nat, whole: nat, range: nat, w: nat, s: nat)
    requires whole > 0
    requires w * whole <= part * WAD < (w + 1) * whole
    requires s * WAD <= w * range < (s + 1) * WAD
    ensures s * WAD * whole <= part * WAD * range
    ensures part * WAD * range < ((s + 1) * WAD + range) * whole
  {
    MulLe(s * WAD, w * range, whole);
    MulLe(w * whole, part * WAD, range);
    assert w * range * whole == w * whole * range;
    MulLe(part * WAD, (w + 1) * whole, range);
    assert (w + 1) * whole * range == w * range * whole + range * whole;
    MulLtMono(w * range, (s + 1) * WAD, whole);
    assert ((s + 1) * WAD + range) * whole == (s + 1) * WAD * whole + range * whole;
  }

  /// Monotonicity of division in the dividend.
  lemma DivLe(a: nat, b: nat, d: nat)
    requires d > 0 && a <= b
    ensures a / d <= b / d
  {
    var qa, qb := a / d, b / d;
    DivBelow(a, d);
    DivBelow(b, d);
    assert qa * d <= a && b < (qb + 1) * d;
    MulLtCancel(qa, qb + 1, d);
  }

  /// Multiplying by a factor of at least one (scaled) does not decrease.
  lemma MulAtLeastOne(x: nat, y: nat)
    requires y >= WAD
    ensures x * y / WAD >= x
  {
    MulLe(WAD, y, x);
    assert x * WAD / WAD == x;
    DivLe(x * WAD, x * y, WAD);
  }

  /// Multiplying by a factor of at most one (scaled) does not increase.
  lemma MulAtMostOne(x: nat, y: nat)
    requires y <= WAD
    ensures x * y / WAD <= x
  {
    MulLe(y, WAD, x);
    assert x * WAD / WAD == x;
    DivLe(x * y, x * WAD, WAD);
  }

  /// Multiplication by a factor strictly above one raises any value of at
  /// least one whole unit.
  lemma MulAboveOne(x: nat, y: nat)
    requires y > WAD && x >= WAD
    ensures x * y / WAD > x
  {
    assert x * y == x * WAD + x * (y - WAD);
    MulLe(1, y - WAD, x);
    assert x * y >= x * WAD + WAD;
    assert (x * WAD + WAD) / WAD == x + 1;
    DivLe(x * WAD + WAD, x * y, WAD);
  }

  /// Every rounded-down step of `PowLoop` over factors of at least one keeps
  /// the accumulator from decreasing.
  lemma {:induction false} PowLoopAtLeastAcc(base: Rate, exp: nat, acc: Rate)
    requires base >= WAD && acc >= WAD
    requires PowLoop(base, exp, acc).Ok?
    ensures PowLoop(base, exp, acc).value >= acc
    decreases exp
  {
    if exp > 0 {
      var e := exp / 2;
      var b := RMul(base, base).value;
      MulAtLeastOne(base, base);
      var a := if e % 2 != 0 then RMul(acc, b).value else acc;
      if e % 2 != 0 {
        MulAtLeastOne(acc, b);
      }
      PowLoopAtLeastAcc(b, e, a);
    }
  }

  /// Once the exponent still has a set bit above bit zero, the result is at
  /// least the (already squared) base.
  lemma {:induction false} PowLoopAtLeastBase(base: Rate, exp: nat, acc: Rate, floor: nat)
    requires WAD <= floor <= base && acc >= WAD && exp >= 2
    requires PowLoop(base, exp, acc).Ok?
    ensures PowLoop(base, exp, acc).value >= floor
    decreases exp
  {
    var e := exp / 2;
    var b := RMul(base, base).value;
    MulAtLeastOne(base, base);
    if e % 2 != 0 {
      var a := RMul(acc, b).value;
      MulAtLeastOne(b, acc);
      assert acc * b == b * acc;
      PowLoopAtLeastAcc(b, e, a);
    } else {
      PowLoopAtLeastBase(b, e, acc, floor);
    }
  }

  /// A compounded factor `base^exp` is never below one, and is at least `base`
  /// when the exponent is positive.
  lemma PowBounds(base: Rate, exp: nat)
    requires base >= WAD
    requires Pow(base, exp).Ok?
    ensures Pow(base, exp).value >= WAD
    ensures exp >= 1 ==> Pow(base, exp).value >= base
    ensures exp == 0 ==> Pow(base, exp).value == WAD
  {
    var acc := if exp % 2 != 0 then base else WAD;
    PowLoopAtLeastAcc(base, exp, acc);
    if exp >= 2 {
      PowLoopAtLeastBase(base, exp, acc, base);
    }
  }

  /// A rounded-down product `p` of `x` and a factor `y` of at least one:
  /// never below `x`, equal to it for a factor of exactly one, and above it
  /// for a factor above one and an `x` of at least one whole unit.
  lemma GrowsByFactor(x: nat, y: nat, p: nat)
    requires y >= WAD
    requires p * WAD <= x * y < (p + 1) * WAD
    ensures p >= x
    ensures y == WAD ==> p == x
    ensures y > WAD && x >= WAD ==> p > x
  {
    MulLe(WAD, y, x);
    MulLtCancel(x, p + 1, WAD);
    if y == WAD {
      MulLtCancel(p, x + 1, WAD);
    }
    if y > WAD && x >= WAD {
      MulLe(WAD + 1, y, x);
      assert x * WAD + WAD <= x * y;
      MulLtCancel(x + 1, p + 1, WAD);
    }
  }
}
