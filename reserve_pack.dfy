/// The reserve account's byte layout: 619 bytes, fields little-endian in a
/// fixed order, the last 138 bytes padding. Packing writes the first 481
/// bytes and leaves the padding as it was; unpacking reads them back,
/// rejects a newer version or a malformed boolean, and repairs the
/// configuration fields that older layouts left zero.
module ReservePack {
  import opened FixedPoint
  import opened ReserveConfigs
  import opened Reserves

  const RESERVE_LEN: nat := 619
  /// Bytes holding fields; the rest of the account is padding.
  const FIELDS_LEN: nat := 481
  const RATE_LIMITER_LEN: nat := 56

  /// The width of each field, in layout order (the padding not included):
  /// the reserve header, the liquidity, the collateral, the configuration,
  /// and the fields appended in later versions.
  const HEADER_SIZES: seq<nat> := [1, 8, 1, 32]
  const LIQUIDITY_SIZES: seq<nat> := [32, 1, 32, 32, 32, 8, 16, 16, 16]
  const COLLATERAL_SIZES: seq<nat> := [32, 8, 32]
  const CONFIG_SIZES: seq<nat> := [1, 1, 1, 1, 1, 1, 1, 8, 8, 1, 8, 8, 32, 1, 1]
  const APPENDED_SIZES: seq<nat> := [16, 56, 8, 16, 1, 1, 8, 1, 1]
  /// The widths of those five sections.
  const SECTION_SIZES: seq<nat> := [42, 185, 72, 74, 108]

  // ----- little-endian integers ------------------------------------------

  function Pow256(n: nat): (p: nat)
    ensures p >= 1
  {
    if n == 0 then 1 else 256 * Pow256(n - 1)
  }

  /// The ranges of the 8- and 16-byte fields: 64 and 128 bits.
  lemma Pow256Widths()
    ensures Pow256(8) == U64_MAX + 1
    ensures Pow256(16) == U128_MAX + 1
  {
    var p := Pow256(8);
    assert p == U64_MAX + 1;
    assert Pow256(12) == 256 * 256 * 256 * 256 * p;
    assert Pow256(16) == 256 * 256 * 256 * 256 * Pow256(12);
  }

  /// The unsigned integer the bytes encode, least significant first.
  function FromLE(b: seq<Byte>): (x: nat)
    ensures x < Pow256(|b|)
  {
    if |b| == 0 then 0 else b[0] + 256 * FromLE(b[1..])
  }

  /// The `n`-byte little-endian encoding of `x`; it decodes back to `x`.
  function ToLE(x: nat, n: nat): (b: seq<Byte>)
    requires x < Pow256(n)
    ensures |b| == n
    ensures FromLE(b) == x
  {
    if n == 0 then [] else [x % 256] + ToLE(x / 256, n - 1)
  }

  /// Each encoding is the only one: decoding and re-encoding gives back the
  /// bytes.
  lemma {:induction false} ToLEFromLE(b: seq<Byte>)
    ensures ToLE(FromLE(b), |b|) == b
  {
    if |b| > 0 {
      ToLEFromLE(b[1..]);
      assert FromLE(b) % 256 == b[0] && FromLE(b) / 256 == FromLE(b[1..]);
    }
  }

  // ----- fixed-width fields ----------------------------------------------

  /// The concatenation of the parts, in order.
  function Flatten(parts: seq<seq<Byte>>): (b: seq<Byte>)
    ensures |b| == Sum(Lengths(parts))
  {
    if |parts| == 0 then []
    else
      SumCons(Lengths(parts));
      assert Lengths(parts)[1..] == Lengths(parts[1..]);
      parts[0] + Flatten(parts[1..])
  }

  function Lengths(parts: seq<seq<Byte>>): (sizes: seq<nat>)
    ensures |sizes| == |parts|
    ensures forall i {:trigger parts[i]} :: 0 <= i < |parts| ==> sizes[i] == |parts[i]|
  {
    if |parts| == 0 then [] else [|parts[0]|] + Lengths(parts[1..])
  }

  /// Parts of the given widths have those lengths.
  lemma LengthsOf(parts: seq<seq<Byte>>, sizes: seq<nat>)
    requires |parts| == |sizes|
    requires forall i :: 0 <= i < |parts| ==> |parts[i]| == sizes[i]
    ensures Lengths(parts) == sizes
  {
  }

  lemma SectionLengths(a: seq<Byte>, b: seq<Byte>, c: seq<Byte>, d: seq<Byte>, e: seq<Byte>)
    ensures Lengths([a, b, c, d, e]) == [|a|, |b|, |c|, |d|, |e|]
  {
    LengthsOf([a, b, c, d, e], [|a|, |b|, |c|, |d|, |e|]);
  }

  /// Where the `i`th part starts: the sum of the widths before it.
  function Offset(sizes: seq<nat>, i: nat): nat
    requires i <= |sizes|
  {
    if i == 0 then 0 else Offset(sizes, i - 1) + sizes[i - 1]
  }

  /// The sum of all the widths.
  function Sum(sizes: seq<nat>): nat
  {
    Offset(sizes, |sizes|)
  }

  /// Offsets measured past the first width.
  lemma {:induction false} OffsetCons(sizes: seq<nat>, i: nat)
    requires 0 < i <= |sizes|
    ensures Offset(sizes, i) == sizes[0] + Offset(sizes[1..], i - 1)
  {
    if i > 1 {
      OffsetCons(sizes, i - 1);
    }
  }

  lemma SumCons(sizes: seq<nat>)
    requires |sizes| > 0
    ensures Sum(sizes) == sizes[0] + Sum(sizes[1..])
  {
    OffsetCons(sizes, |sizes|);
  }

  /// Each section is as wide as its fields, and the sections fill the
  /// first 481 bytes of the account.
  lemma SectionWidths()
    ensures Sum(HEADER_SIZES) == SECTION_SIZES[0]
    ensures Sum(LIQUIDITY_SIZES) == SECTION_SIZES[1]
    ensures Sum(COLLATERAL_SIZES) == SECTION_SIZES[2]
    ensures Sum(CONFIG_SIZES) == SECTION_SIZES[3]
    ensures Sum(APPENDED_SIZES) == SECTION_SIZES[4]
    ensures Sum(SECTION_SIZES) == FIELDS_LEN
  {
    HeaderWidth();
    LiquidityWidth();
    CollateralWidth();
    ConfigWidth();
    AppendedWidth();
    FieldsWidth();
  }

  lemma HeaderWidth()
    ensures Sum(HEADER_SIZES) == 42
  {
    assert |HEADER_SIZES| == 4;
    assert Offset(HEADER_SIZES, 4) == 42;
  }

  lemma LiquidityWidth()
    ensures Sum(LIQUIDITY_SIZES) == 185
  {
    assert |LIQUIDITY_SIZES| == 9;
    assert Offset(LIQUIDITY_SIZES, 5) == 129;
    assert Offset(LIQUIDITY_SIZES, 9) == 185;
  }

  lemma CollateralWidth()
    ensures Sum(COLLATERAL_SIZES) == 72
  {
    assert |COLLATERAL_SIZES| == 3;
    assert Offset(COLLATERAL_SIZES, 3) == 72;
  }

  lemma ConfigWidth()
    ensures Sum(CONFIG_SIZES) == 74
  {
    assert |CONFIG_SIZES| == 15;
    assert Offset(CONFIG_SIZES, 5) == 5;
    assert Offset(CONFIG_SIZES, 10) == 24;
    assert Offset(CONFIG_SIZES, 15) == 74;
  }

  lemma AppendedWidth()
    ensures Sum(APPENDED_SIZES) == 108
  {
    assert |APPENDED_SIZES| == 9;
    assert Offset(APPENDED_SIZES, 5) == 97;
    assert Offset(APPENDED_SIZES, 9) == 108;
  }

  lemma FieldsWidth()
    ensures Sum(SECTION_SIZES) == FIELDS_LEN
  {
    assert |SECTION_SIZES| == 5;
    assert Offset(SECTION_SIZES, 5) == 481;
  }

  /// A part ends no later than the sum of the widths.
  lemma {:induction false} OffsetBound(sizes: seq<nat>, i: nat)
    requires i < |sizes|
    ensures Offset(sizes, i) + sizes[i] <= Sum(sizes)
  {
    if i + 1 < |sizes| {
      OffsetGrows(sizes, i + 1, |sizes|);
    }
  }

  lemma {:induction false} OffsetGrows(sizes: seq<nat>, i: nat, j: nat)
    requires i <= j <= |sizes|
    ensures Offset(sizes, i) <= Offset(sizes, j)
  {
    if i < j {
      OffsetGrows(sizes, i, j - 1);
    }
  }

  /// The `i`th of consecutive fields of the given widths at the front of
  /// `input`.
  function Part(input: seq<Byte>, sizes: seq<nat>, i: nat): (p: seq<Byte>)
    requires |input| >= Sum(sizes)
    requires i < |sizes|
    ensures |p| == sizes[i]
  {
    OffsetBound(sizes, i);
    input[Offset(sizes, i)..Offset(sizes, i) + sizes[i]]
  }

  /// Cuts consecutive fields of the given widths off the front of `input`
  /// (what `array_refs!` does); bytes after them are ignored.
  function Split(input: seq<Byte>, sizes: seq<nat>): (parts: seq<seq<Byte>>)
    requires |input| >= Sum(sizes)
    ensures Lengths(parts) == sizes
  {
    var parts := seq(|sizes|, i requires 0 <= i < |sizes| => Part(input, sizes, i));
    LengthsOf(parts, sizes);
    parts
  }

  /// The `i`th part is the bytes from its offset on, as wide as its width.
  lemma SplitIndex(input: seq<Byte>, sizes: seq<nat>, i: nat)
    requires |input| >= Sum(sizes)
    requires i < |sizes|
    ensures Offset(sizes, i) + sizes[i] <= |input|
    ensures Split(input, sizes)[i] == input[Offset(sizes, i)..Offset(sizes, i) + sizes[i]]
  {
    OffsetBound(sizes, i);
  }

  /// The `i`th part sits in the concatenation at its offset.
  lemma {:induction false} FlattenSlice(parts: seq<seq<Byte>>, i: nat)
    requires i < |parts|
    ensures Offset(Lengths(parts), i) + |parts[i]| <= |Flatten(parts)|
    ensures Flatten(parts)[Offset(Lengths(parts), i)..Offset(Lengths(parts), i) + |parts[i]|] == parts[i]
  {
    if i == 0 {
      FlattenHead(parts);
    } else {
      var tail := parts[1..];
      FlattenSlice(tail, i - 1);
      FlattenTail(parts, i);
      var a := Offset(Lengths(tail), i - 1);
      ShiftSlice(parts[0], Flatten(tail), a, |tail[i - 1]|);
    }
  }

  /// The first part starts the concatenation.
  lemma FlattenHead(parts: seq<seq<Byte>>)
    requires 0 < |parts|
    ensures |parts[0]| <= |Flatten(parts)|
    ensures Offset(Lengths(parts), 0) == 0
    ensures Flatten(parts)[0..|parts[0]|] == parts[0]
  {
    assert Flatten(parts) == parts[0] + Flatten(parts[1..]);
    PrefixSlice(parts[0], Flatten(parts[1..]), 0, |parts[0]|);
    WholeSlice(parts[0]);
  }

  /// Past the first part, offsets are those in the remaining parts.
  lemma FlattenTail(parts: seq<seq<Byte>>, i: nat)
    requires 0 < i < |parts|
    ensures Flatten(parts) == parts[0] + Flatten(parts[1..])
    ensures Offset(Lengths(parts), i) == |parts[0]| + Offset(Lengths(parts[1..]), i - 1)
    ensures parts[i] == parts[1..][i - 1]
  {
    assert Lengths(parts)[1..] == Lengths(parts[1..]);
    OffsetCons(Lengths(parts), i);
  }

  lemma ShiftSlice(p: seq<Byte>, q: seq<Byte>, a: nat, w: nat)
    requires a + w <= |q|
    ensures (p + q)[|p| + a..|p| + a + w] == q[a..a + w]
  {
  }

  lemma PrefixSlice(a: seq<Byte>, rest: seq<Byte>, o: nat, w: nat)
    requires o + w <= |a|
    ensures (a + rest)[o..o + w] == a[o..o + w]
  {
  }

  lemma WholeSlice(a: seq<Byte>)
    ensures a[0..|a|] == a
  {
  }

  /// Each part of the concatenation is found again at its offset, whatever
  /// follows.
  lemma FlattenPart(parts: seq<seq<Byte>>, rest: seq<Byte>, i: nat)
    requires i < |parts|
    ensures Part(Flatten(parts) + rest, Lengths(parts), i) == parts[i]
  {
    FlattenSlice(parts, i);
    PrefixSlice(Flatten(parts), rest, Offset(Lengths(parts), i), |parts[i]|);
  }

  /// Splitting by the parts' own widths recovers the parts, whatever
  /// follows them.
  lemma SplitFlatten(parts: seq<seq<Byte>>, rest: seq<Byte>)
    ensures Split(Flatten(parts) + rest, Lengths(parts)) == parts
  {
    var split := Split(Flatten(parts) + rest, Lengths(parts));
    forall i | 0 <= i < |parts|
      ensures split[i] == parts[i]
    {
      FlattenPart(parts, rest, i);
    }
  }

  // ----- packing ---------------------------------------------------------

  /// A state every field of which fits its slot: the scaled decimals are
  /// stored in 16 bytes, and packing a larger one stops the program.
  predicate Packable(s: ReserveState)
  {
    && s.liquidity.borrowed_amount_wads <= U128_MAX
    && s.liquidity.cumulative_borrow_rate_wads <= U128_MAX
    && s.liquidity.accumulated_protocol_fees_wads <= U128_MAX
    && s.liquidity.market_price <= U128_MAX
    && s.liquidity.smoothed_market_price <= U128_MAX
  }

  function BoolByte(b: bool): Byte
  {
    if b then 1 else 0
  }

  function ReserveTypeByte(t: ReserveType): Byte
  {
    match t
    case Regular => 0
    case Isolated => 1
  }

  function DecimalBytes(d: Decimal): (b: seq<Byte>)
    requires d <= U128_MAX
    ensures |b| == 16
  {
    Pow256Widths();
    ToLE(d, 16)
  }

  function U64Bytes(x: u64): (b: seq<Byte>)
    ensures |b| == 8
  {
    Pow256Widths();
    ToLE(x, 8)
  }

  function HeaderFields(s: ReserveState): (parts: seq<seq<Byte>>)
    ensures Lengths(parts) == HEADER_SIZES
  {
    var parts := [[s.version], U64Bytes(s.last_update.slot), [BoolByte(s.last_update.stale)], s.lending_market];
    LengthsOf(parts, HEADER_SIZES);
    parts
  }

  function LiquidityFields(l: LiquidityState): (parts: seq<seq<Byte>>)
    requires l.borrowed_amount_wads <= U128_MAX && l.cumulative_borrow_rate_wads <= U128_MAX
    requires l.market_price <= U128_MAX
    ensures Lengths(parts) == LIQUIDITY_SIZES
  {
    var parts := [l.mint_pubkey, [l.mint_decimals], l.supply_pubkey, l.pyth_oracle_pubkey,
                  l.switchboard_oracle_pubkey, U64Bytes(l.available_amount),
                  DecimalBytes(l.borrowed_amount_wads), DecimalBytes(l.cumulative_borrow_rate_wads),
                  DecimalBytes(l.market_price)];
    LengthsOf(parts, LIQUIDITY_SIZES);
    parts
  }

  function CollateralFields(c: CollateralState): (parts: seq<seq<Byte>>)
    ensures Lengths(parts) == COLLATERAL_SIZES
  {
    var parts := [c.mint_pubkey, U64Bytes(c.mint_total_supply), c.supply_pubkey];
    LengthsOf(parts, COLLATERAL_SIZES);
    parts
  }

  function ConfigFields(k: ReserveConfig): (parts: seq<seq<Byte>>)
    ensures Lengths(parts) == CONFIG_SIZES
  {
    var parts := [[k.optimal_utilization_rate], [k.loan_to_value_ratio], [k.liquidation_bonus],
                  [k.liquidation_threshold], [k.min_borrow_rate], [k.optimal_borrow_rate], [k.max_borrow_rate],
                  U64Bytes(k.fees.borrow_fee_wad), U64Bytes(k.fees.flash_loan_fee_wad),
                  [k.fees.host_fee_percentage], U64Bytes(k.deposit_limit), U64Bytes(k.borrow_limit),
                  k.fee_receiver, [k.protocol_liquidation_fee], [k.protocol_take_rate]];
    LengthsOf(parts, CONFIG_SIZES);
    parts
  }

  function AppendedFields(s: ReserveState): (parts: seq<seq<Byte>>)
    requires Packable(s)
    ensures Lengths(parts) == APPENDED_SIZES
  {
    var l, k := s.liquidity, s.config;
    var parts := [DecimalBytes(l.accumulated_protocol_fees_wads), s.rate_limiter.image,
                  U64Bytes(k.added_borrow_weight_bps), DecimalBytes(l.smoothed_market_price),
                  [ReserveTypeByte(k.reserve_type)], [k.max_utilization_rate], U64Bytes(k.super_max_borrow_rate),
                  [k.max_liquidation_bonus], [k.max_liquidation_threshold]];
    LengthsOf(parts, APPENDED_SIZES);
    parts
  }

  /// The state's fields, section by section, one byte string per field.
  function Sections(s: ReserveState): (sections: seq<seq<Byte>>)
    requires Packable(s)
    ensures Lengths(sections) == SECTION_SIZES
  {
    SectionWidths();
    var header, liquidity := Flatten(HeaderFields(s)), Flatten(LiquidityFields(s.liquidity));
    var collateral, config := Flatten(CollateralFields(s.collateral)), Flatten(ConfigFields(s.config));
    var appended := Flatten(AppendedFields(s));
    assert |header| == SECTION_SIZES[0] && |liquidity| == SECTION_SIZES[1] && |collateral| == SECTION_SIZES[2];
    assert |config| == SECTION_SIZES[3] && |appended| == SECTION_SIZES[4];
    SectionLengths(header, liquidity, collateral, config, appended);
    [header, liquidity, collateral, config, appended]
  }

  /// The bytes `pack_into_slice` writes: every field, in layout order.
  function Layout(s: ReserveState): (b: seq<Byte>)
    requires Packable(s)
    ensures |b| == FIELDS_LEN
  {
    SectionWidths();
    Flatten(Sections(s))
  }

  /// `pack_into_slice`: writes the state's fields over the start of the
  /// account, leaving the padding and anything after it as it was.
  method PackIntoSlice(s: ReserveState, output: array<Byte>)
    requires Packable(s)
    requires output.Length >= RESERVE_LEN
    modifies output
    ensures output[..] == Layout(s) + old(output[FIELDS_LEN..])
  {
    WritePrefix(Layout(s), output);
  }

  /// Copies `bytes` over the start of `output`, byte by byte.
  method WritePrefix(bytes: seq<Byte>, output: array<Byte>)
    requires |bytes| <= output.Length
    modifies output
    ensures output[..] == bytes + old(output[|bytes|..])
  {
    for i := 0 to |bytes|
      invariant output[..i] == bytes[..i]
      invariant output[i..] == old(output[i..])
    {
      output[i] := bytes[i];
      assert output[i + 1..] == old(output[i + 1..]);
    }
    assert output[..] == output[..|bytes|] + output[|bytes|..];
  }

  // ----- unpacking -------------------------------------------------------

  /// `unpack_bool`: only 0 and 1 are booleans.
  function UnpackBool(b: Byte): (r: Result<bool>)
    ensures r.Ok? <==> b < 2
    ensures r.Ok? ==> BoolByte(r.value) == b
    ensures r.Err? ==> r.error == InvalidAccountData
  {
    if b == 0 then Ok(false) else if b == 1 then Ok(true) else Err(InvalidAccountData)
  }

  /// The byte a boolean is stored as reads back as that boolean.
  lemma UnpackBoolByte(b: bool)
    ensures UnpackBool(BoolByte(b)) == Ok(b)
  {
  }

  function U64From(b: seq<Byte>): u64
    requires |b| == 8
  {
    Pow256Widths();
    FromLE(b)
  }

  /// `unpack_decimal`: a scaled value stored in 16 bytes.
  function DecimalFrom(b: seq<Byte>): (d: Decimal)
    requires |b| == 16
    ensures d <= U128_MAX
  {
    Pow256Widths();
    FromLE(b)
  }

  /// `ReserveType::from_u8`: the variant with that discriminant.
  function ReserveTypeFrom(b: Byte): (t: ReserveType)
    requires b < 2
    ensures ReserveTypeByte(t) == b
  {
    if b == 0 then Regular else Isolated
  }

  /// The state `unpack_from_slice` builds from fields that parsed: the
  /// maximum utilisation, liquidation bonus and threshold, and the super
  /// maximum borrow rate are raised to at least their base values, and the
  /// protocol liquidation fee is capped.
  function Normalize(s: ReserveState): (n: ReserveState)
    ensures n.config.max_utilization_rate == Max(s.config.optimal_utilization_rate, s.config.max_utilization_rate)
    ensures n.config.max_liquidation_bonus == Max(s.config.liquidation_bonus, s.config.max_liquidation_bonus)
    ensures n.config.max_liquidation_threshold
            == Max(s.config.liquidation_threshold, s.config.max_liquidation_threshold)
    ensures n.config.super_max_borrow_rate == Max(s.config.max_borrow_rate, s.config.super_max_borrow_rate)
    ensures n.config.protocol_liquidation_fee
            == Min(s.config.protocol_liquidation_fee, MAX_PROTOCOL_LIQUIDATION_FEE_DECA_BPS)
    ensures n.(config := s.config) == s
  {
    var k := s.config;
    s.(config := k.(max_utilization_rate := Max(k.optimal_utilization_rate, k.max_utilization_rate),
                    max_liquidation_bonus := Max(k.liquidation_bonus, k.max_liquidation_bonus),
                    max_liquidation_threshold := Max(k.liquidation_threshold, k.max_liquidation_threshold),
                    super_max_borrow_rate := Max(k.max_borrow_rate, k.super_max_borrow_rate),
                    protocol_liquidation_fee := Min(k.protocol_liquidation_fee,
                                                    MAX_PROTOCOL_LIQUIDATION_FEE_DECA_BPS)))
  }

  /// A state unpacking leaves as it is.
  predicate Normalized(s: ReserveState)
  {
    && s.config.optimal_utilization_rate <= s.config.max_utilization_rate
    && s.config.liquidation_bonus <= s.config.max_liquidation_bonus
    && s.config.liquidation_threshold <= s.config.max_liquidation_threshold
    && s.config.max_borrow_rate <= s.config.super_max_borrow_rate
    && s.config.protocol_liquidation_fee <= MAX_PROTOCOL_LIQUIDATION_FEE_DECA_BPS
  }

  /// Normalising is idempotent: its result is normalised, and a normalised
  /// state is its own normal form.
  lemma NormalizeNormalizes(s: ReserveState)
    ensures Normalized(Normalize(s))
    ensures Normalized(s) <==> Normalize(s) == s
  {
    if Normalize(s) == s {
      assert s.config == Normalize(s).config;
    }
  }

  /// The state the parsed fields describe, before normalisation.
  function Decode(header: seq<seq<Byte>>, liquidity: seq<seq<Byte>>, collateral: seq<seq<Byte>>,
                  config: seq<seq<Byte>>, appended: seq<seq<Byte>>, stale: bool): ReserveState
    requires Lengths(header) == HEADER_SIZES && Lengths(liquidity) == LIQUIDITY_SIZES
    requires Lengths(collateral) == COLLATERAL_SIZES && Lengths(config) == CONFIG_SIZES
    requires Lengths(appended) == APPENDED_SIZES
    requires appended[4][0] < 2
  {
    var l, c, k, a := liquidity, collateral, config, appended;
    ReserveState(
      header[0][0],
      LastUpdate(U64From(header[1]), stale),
      header[3],
      LiquidityState(l[0], l[1][0], l[2], l[3], l[4], U64From(l[5]),
                     DecimalFrom(l[6]), DecimalFrom(l[7]), DecimalFrom(a[0]),
                     DecimalFrom(l[8]), DecimalFrom(a[3])),
      CollateralState(c[0], U64From(c[1]), c[2]),
      ReserveConfig(
        optimal_utilization_rate := k[0][0],
        max_utilization_rate := a[5][0],
        loan_to_value_ratio := k[1][0],
        liquidation_bonus := k[2][0],
        max_liquidation_bonus := a[7][0],
        liquidation_threshold := k[3][0],
        max_liquidation_threshold := a[8][0],
        min_borrow_rate := k[4][0],
        optimal_borrow_rate := k[5][0],
        max_borrow_rate := k[6][0],
        super_max_borrow_rate := U64From(a[6]),
        fees := ReserveFees(U64From(k[7]), U64From(k[8]), k[9][0]),
        deposit_limit := U64From(k[10]),
        borrow_limit := U64From(k[11]),
        fee_receiver := k[12],
        protocol_liquidation_fee := k[13][0],
        protocol_take_rate := k[14][0],
        added_borrow_weight_bps := U64From(a[2]),
        reserve_type := ReserveTypeFrom(a[4][0])),
      RateLimiter(a[1]))
  }

  /// The version, the stale flag and the asset type are the bytes at
  /// offsets 0, 9 and 469.
  lemma FlagOffsets(input: seq<Byte>)
    requires |input| >= FIELDS_LEN
    ensures Sum(SECTION_SIZES) == FIELDS_LEN && Sum(HEADER_SIZES) == 42 && Sum(APPENDED_SIZES) == 108
    ensures |Split(input, SECTION_SIZES)[0]| == 42 && |Split(input, SECTION_SIZES)[4]| == 108
    ensures var sections := Split(input, SECTION_SIZES);
            && Split(sections[0], HEADER_SIZES)[0] == [input[0]]
            && Split(sections[0], HEADER_SIZES)[2] == [input[9]]
            && sections[4][96] == input[469]
  {
    SectionWidths();
    var sections := Split(input, SECTION_SIZES);
    SectionOffsets(input);
    HeaderOffsets(sections[0]);
  }

  lemma SectionOffsets(input: seq<Byte>)
    requires |input| >= FIELDS_LEN
    ensures Sum(SECTION_SIZES) == FIELDS_LEN
    ensures Split(input, SECTION_SIZES)[0] == input[..42]
    ensures Split(input, SECTION_SIZES)[4] == input[373..481]
  {
    FieldsWidth();
    AppendedSectionOffset();
    SplitIndex(input, SECTION_SIZES, 0);
    SplitIndex(input, SECTION_SIZES, 4);
  }

  lemma AppendedSectionOffset()
    ensures Offset(SECTION_SIZES, 0) == 0 && SECTION_SIZES[0] == 42
    ensures Offset(SECTION_SIZES, 4) == 373 && SECTION_SIZES[4] == 108
  {
  }

  lemma HeaderOffsets(header: seq<Byte>)
    requires |header| == 42
    ensures Sum(HEADER_SIZES) == 42
    ensures Split(header, HEADER_SIZES)[0] == [header[0]]
    ensures Split(header, HEADER_SIZES)[2] == [header[9]]
  {
    HeaderWidth();
    StaleOffset();
    SplitIndex(header, HEADER_SIZES, 0);
    SplitIndex(header, HEADER_SIZES, 2);
  }

  lemma StaleOffset()
    ensures Offset(HEADER_SIZES, 0) == 0 && HEADER_SIZES[0] == 1
    ensures Offset(HEADER_SIZES, 2) == 9 && HEADER_SIZES[2] == 1
  {
  }

  lemma AppendedOffsets(appended: seq<Byte>)
    requires |appended| == 108
    ensures Sum(APPENDED_SIZES) == 108
    ensures Split(appended, APPENDED_SIZES)[4] == [appended[96]]
  {
    AppendedWidth();
    AssetTypeOffset();
    SplitIndex(appended, APPENDED_SIZES, 4);
  }

  lemma AssetTypeOffset()
    ensures Offset(APPENDED_SIZES, 4) == 96 && APPENDED_SIZES[4] == 1
  {
  }

  /// `unpack_from_slice`: reads a reserve from the start of `input`. A
  /// version newer than the program's, or a stale flag other than 0 or 1,
  /// is invalid account data.
  function UnpackFromSlice(input: seq<Byte>): (r: Result<ReserveState>)
    requires |input| >= RESERVE_LEN
    requires input[469] < 2
    ensures r.Ok? <==> input[0] <= PROGRAM_VERSION && input[9] < 2
    ensures r.Err? ==> r.error == InvalidAccountData
    ensures r.Ok? ==> r.value.version == input[0] && Packable(r.value) && Normalized(r.value)
  {
    SectionWidths();
    FlagOffsets(input);
    var sections := Split(input, SECTION_SIZES);
    if input[0] > PROGRAM_VERSION then Err(InvalidAccountData)
    else
      var stale :- UnpackBool(input[9]);
      var d := DecodeSections(sections, stale);
      NormalizeNormalizes(d);
      Ok(Normalize(d))
  }

  /// The state the sections of an account describe, before normalisation.
  function DecodeSections(sections: seq<seq<Byte>>, stale: bool): (d: ReserveState)
    requires Lengths(sections) == SECTION_SIZES
    requires sections[4][96] < 2
    ensures d.version == Split(sections[0], HEADER_SIZES)[0][0]
    ensures Packable(d)
  {
    SectionWidths();
    AppendedOffsets(sections[4]);
    Decode(Split(sections[0], HEADER_SIZES), Split(sections[1], LIQUIDITY_SIZES),
           Split(sections[2], COLLATERAL_SIZES), Split(sections[3], CONFIG_SIZES),
           Split(sections[4], APPENDED_SIZES), stale)
  }

  /// Splitting one packed section recovers its fields.
  lemma SplitSection(fields: seq<seq<Byte>>)
    ensures Split(Flatten(fields), Lengths(fields)) == fields
  {
    SplitFlatten(fields, []);
    assert Flatten(fields) + [] == Flatten(fields);
  }

  /// Splitting a packed account into sections recovers the sections,
  /// whatever the padding holds.
  lemma SplitLayout(s: ReserveState, padding: seq<Byte>)
    requires Packable(s)
    ensures Sum(SECTION_SIZES) == FIELDS_LEN
    ensures Split(Layout(s) + padding, SECTION_SIZES) == Sections(s)
  {
    SectionWidths();
    SplitFlatten(Sections(s), padding);
  }

  /// Splitting each packed section recovers its fields.
  lemma SplitSections(s: ReserveState)
    requires Packable(s)
    ensures Sum(HEADER_SIZES) == 42 && Split(Sections(s)[0], HEADER_SIZES) == HeaderFields(s)
    ensures Sum(LIQUIDITY_SIZES) == 185
            && Split(Sections(s)[1], LIQUIDITY_SIZES) == LiquidityFields(s.liquidity)
    ensures Sum(COLLATERAL_SIZES) == 72
            && Split(Sections(s)[2], COLLATERAL_SIZES) == CollateralFields(s.collateral)
    ensures Sum(CONFIG_SIZES) == 74 && Split(Sections(s)[3], CONFIG_SIZES) == ConfigFields(s.config)
    ensures Sum(APPENDED_SIZES) == 108 && Split(Sections(s)[4], APPENDED_SIZES) == AppendedFields(s)
  {
    SplitHeader(s);
    SplitLiquidity(s);
    SplitCollateral(s);
    SplitConfig(s);
    SplitAppended(s);
  }

  lemma SplitHeader(s: ReserveState)
    requires Packable(s)
    ensures Sum(HEADER_SIZES) == 42 && Split(Sections(s)[0], HEADER_SIZES) == HeaderFields(s)
  {
    HeaderWidth();
    assert Sections(s)[0] == Flatten(HeaderFields(s));
    SplitSection(HeaderFields(s));
  }

  lemma SplitLiquidity(s: ReserveState)
    requires Packable(s)
    ensures Sum(LIQUIDITY_SIZES) == 185
            && Split(Sections(s)[1], LIQUIDITY_SIZES) == LiquidityFields(s.liquidity)
  {
    LiquidityWidth();
    assert Sections(s)[1] == Flatten(LiquidityFields(s.liquidity));
    SplitSection(LiquidityFields(s.liquidity));
  }

  lemma SplitCollateral(s: ReserveState)
    requires Packable(s)
    ensures Sum(COLLATERAL_SIZES) == 72
            && Split(Sections(s)[2], COLLATERAL_SIZES) == CollateralFields(s.collateral)
  {
    CollateralWidth();
    assert Sections(s)[2] == Flatten(CollateralFields(s.collateral));
    SplitSection(CollateralFields(s.collateral));
  }

  lemma SplitConfig(s: ReserveState)
    requires Packable(s)
    ensures Sum(CONFIG_SIZES) == 74 && Split(Sections(s)[3], CONFIG_SIZES) == ConfigFields(s.config)
  {
    ConfigWidth();
    assert Sections(s)[3] == Flatten(ConfigFields(s.config));
    SplitSection(ConfigFields(s.config));
  }

  lemma SplitAppended(s: ReserveState)
    requires Packable(s)
    ensures Sum(APPENDED_SIZES) == 108 && Split(Sections(s)[4], APPENDED_SIZES) == AppendedFields(s)
  {
    AppendedWidth();
    assert Sections(s)[4] == Flatten(AppendedFields(s));
    SplitSection(AppendedFields(s));
  }

  /// Unpacking what was packed gives back the state, normalised, whatever
  /// the padding holds; a version newer than the program's is refused.
  lemma UnpackPacked(s: ReserveState, padding: seq<Byte>)
    requires Packable(s)
    requires |padding| >= RESERVE_LEN - FIELDS_LEN
    ensures (Layout(s) + padding)[469] < 2
    ensures s.version <= PROGRAM_VERSION ==> UnpackFromSlice(Layout(s) + padding) == Ok(Normalize(s))
    ensures s.version > PROGRAM_VERSION ==> UnpackFromSlice(Layout(s) + padding) == Err(InvalidAccountData)
  {
    PackedFlags(s, padding);
    if s.version <= PROGRAM_VERSION {
      UnpackPackedCurrent(s, padding);
    }
  }

  /// The version, stale flag and asset type bytes of a packed state.
  lemma PackedFlags(s: ReserveState, padding: seq<Byte>)
    requires Packable(s)
    requires |padding| >= RESERVE_LEN - FIELDS_LEN
    ensures (Layout(s) + padding)[0] == s.version
    ensures (Layout(s) + padding)[9] == BoolByte(s.last_update.stale)
    ensures (Layout(s) + padding)[469] == ReserveTypeByte(s.config.reserve_type)
  {
    var input := Layout(s) + padding;
    FlagOffsets(input);
    SplitLayout(s, padding);
    SplitHeader(s);
    AssetTypeOfState(s);
  }

  lemma UnpackPackedCurrent(s: ReserveState, padding: seq<Byte>)
    requires Packable(s) && s.version <= PROGRAM_VERSION
    requires |padding| >= RESERVE_LEN - FIELDS_LEN
    requires (Layout(s) + padding)[469] < 2
    ensures UnpackFromSlice(Layout(s) + padding) == Ok(Normalize(s))
  {
    var input := Layout(s) + padding;
    PackedFlags(s, padding);
    SplitLayout(s, padding);
    AssetTypeOfState(s);
    DecodeSectionsOfState(s);
    UnpackSections(input, Sections(s), s);
  }

  /// Unpacking an account whose sections decode to `s` and whose flag
  /// bytes are those of `s` gives `s`, normalised.
  lemma UnpackSections(input: seq<Byte>, sections: seq<seq<Byte>>, s: ReserveState)
    requires |input| >= RESERVE_LEN && input[469] < 2
    requires input[0] == s.version <= PROGRAM_VERSION && input[9] == BoolByte(s.last_update.stale)
    requires Lengths(sections) == SECTION_SIZES && sections[4][96] < 2
    requires Sum(SECTION_SIZES) == FIELDS_LEN && Split(input, SECTION_SIZES) == sections
    requires DecodeSections(sections, s.last_update.stale) == s
    ensures UnpackFromSlice(input) == Ok(Normalize(s))
  {
    UnpackBoolByte(s.last_update.stale);
  }

  /// Decoding the sections of a packed state gives back the state.
  lemma DecodeSectionsOfState(s: ReserveState)
    requires Packable(s)
    requires |Sections(s)[4]| == 108 && Sections(s)[4][96] < 2
    ensures DecodeSections(Sections(s), s.last_update.stale) == s
  {
    SplitSections(s);
    DecodeFields(s);
  }

  /// The asset type byte of a packed state is the 97th byte of its last
  /// section.
  lemma AssetTypeOfState(s: ReserveState)
    requires Packable(s)
    ensures |Sections(s)[4]| == 108 && Sections(s)[4][96] == ReserveTypeByte(s.config.reserve_type)
  {
    SplitAppended(s);
    AppendedOffsets(Sections(s)[4]);
  }

  /// Decoding the fields of a state gives back the state.
  lemma DecodeFields(s: ReserveState)
    requires Packable(s)
    ensures AppendedFields(s)[4][0] < 2
    ensures Decode(HeaderFields(s), LiquidityFields(s.liquidity), CollateralFields(s.collateral),
                   ConfigFields(s.config), AppendedFields(s), s.last_update.stale) == s
  {
    assert ReserveTypeFrom(AppendedFields(s)[4][0]) == s.config.reserve_type;
  }

  /// The round trip the program relies on: a normalised state of the
  /// current version survives packing and unpacking unchanged.
  lemma PackUnpackRoundTrip(s: ReserveState, padding: seq<Byte>)
    requires Packable(s) && Normalized(s) && s.version <= PROGRAM_VERSION
    requires |padding| >= RESERVE_LEN - FIELDS_LEN
    ensures (Layout(s) + padding)[469] < 2
    ensures UnpackFromSlice(Layout(s) + padding) == Ok(s)
  {
    UnpackPacked(s, padding);
    NormalizeNormalizes(s);
  }
}
