/** Fee arithmetic of the withdrawal transactions (internal/withdraw/gas.go). */
module Gas {
  import opened Wrappers
  import opened Ints

  datatype FeeError =
    | MaxFeeRequired
    | TipRequired
    | MaxFeeNotPositive
    | TipNotPositive
    | FeeCapNotPositive
    | TipCapNotPositive
    | MaxFeeBelowTip

  datatype FeeCaps = FeeCaps(maxFee: Option<int>, maxTip: Option<int>)

  datatype GasPolicy = GasPolicy(bumpBPS: int64, maxFeeCap: Option<int>, maxTipCap: Option<int>)

  function ValidateCaps(policy: GasPolicy): (r: Option<FeeError>)
    ensures r.None? <==> && (policy.maxFeeCap.Some? ==> policy.maxFeeCap.value > 0)
                         && (policy.maxTipCap.Some? ==> policy.maxTipCap.value > 0)
  {
    if policy.maxFeeCap.Some? && policy.maxFeeCap.value <= 0 then Some(FeeCapNotPositive)
    else if policy.maxTipCap.Some? && policy.maxTipCap.value <= 0 then Some(TipCapNotPositive)
    else None
  }

  function Validate(fees: FeeCaps): (r: Option<FeeError>)
    ensures r.None? <==> ValidFees(fees)
  {
    if fees.maxFee.None? then Some(MaxFeeRequired)
    else if fees.maxTip.None? then Some(TipRequired)
    else if fees.maxFee.value <= 0 then Some(MaxFeeNotPositive)
    else if fees.maxTip.value <= 0 then Some(TipNotPositive)
    else if fees.maxFee.value < fees.maxTip.value then Some(MaxFeeBelowTip)
    else None
  }

  /** The rule of EIP-1559: a positive tip, and a maximum fee that covers it. */
  predicate ValidFees(fees: FeeCaps) {
    && fees.maxFee.Some? && fees.maxTip.Some?
    && 0 < fees.maxTip.value <= fees.maxFee.value
  }

  /** Basis points are added to 10000 in int64 arithmetic, then scaled with big integers. */
  function BumpBPS(value: int, bps: int64): int {
    value * WrapInt64(10_000 + bps) / 10_000
  }

  function CapBig(value: int, cap: Option<int>): (r: int)
    ensures IsCapped(r, value, cap)
  {
    if cap.Some? && value > cap.value then cap.value else value
  }

  /** The smaller of a value and a cap, where no cap is infinite. */
  predicate IsCapped(r: int, value: int, cap: Option<int>) {
    r <= value && (cap.Some? ==> r <= cap.value) && (r == value || cap == Some(r))
  }

  predicate WithinCap(value: int, cap: Option<int>) {
    cap.Some? ==> value <= cap.value
  }

  predicate WithinCaps(policy: GasPolicy, fees: FeeCaps) {
    && (fees.maxFee.Some? ==> WithinCap(fees.maxFee.value, policy.maxFeeCap))
    && (fees.maxTip.Some? ==> WithinCap(fees.maxTip.value, policy.maxTipCap))
  }

  function BumpChecked(policy: GasPolicy, fees: FeeCaps): (r: Result<FeeCaps, FeeError>)
    ensures r.Success? ==> ValidFees(fees) && ValidFees(r.value) && WithinCaps(policy, r.value)
  {
    match ValidateCaps(policy)
    case Some(e) => Failure(e)
    case None =>
      match Validate(fees)
      case Some(e) => Failure(e)
      case None =>
        var result := FeeCaps(
          Some(CapBig(BumpBPS(fees.maxFee.value, policy.bumpBPS), policy.maxFeeCap)),
          Some(CapBig(BumpBPS(fees.maxTip.value, policy.bumpBPS), policy.maxTipCap)));
        match Validate(result)
        case Some(e) => Failure(e)
        case None => Success(result)
  }

  /** The first fees of a withdrawal, from the node's two suggestions. */
  function FirstFees(policy: GasPolicy, gasPrice: int, tipCap: int): (r: Result<FeeCaps, FeeError>)
    ensures r.Success? ==> ValidFees(r.value) && WithinCaps(policy, r.value)
  {
    var priorityFee := CapBig(tipCap, policy.maxTipCap);
    var maxFee := gasPrice + priorityFee;
    var feeCaps := FeeCaps(Some(CapBig(maxFee, policy.maxFeeCap)), Some(priorityFee));
    match Validate(feeCaps)
    case Some(e) => Failure(e)
    case None => Success(feeCaps)
  }

  // ----- one bump -----

  /** The bumps that cannot overflow the int64 sum 10000 + bps. */
  predicate SoundBump(bps: int) {
    0 <= bps <= MAX_INT64 - 10_000
  }

  lemma BumpFacts(v: int, w: int, bps: int64)
    requires SoundBump(bps) && 0 <= v <= w
    ensures v <= BumpBPS(v, bps) <= BumpBPS(w, bps)
    ensures BumpBPS(v, bps) == v + v * bps / 10_000
    ensures BumpBPS(v, bps) == v <==> v * bps < 10_000
    ensures BumpBPS(v, bps) * 10_000 <= v * (10_000 + bps)
  {
    assert WrapInt64(10_000 + bps) == 10_000 + bps;
    assert v * (10_000 + bps) == v * 10_000 + v * bps;
    assert 0 <= v * bps <= w * bps by { MulMonotone(v, w, bps); }
    assert w * (10_000 + bps) == w * 10_000 + w * bps;
  }

  /** For every bump that fits int64, raising or lowering: multiplied exactly, rounded down. */
  lemma BumpIsFloor(v: int, bps: int64)
    requires bps <= MAX_INT64 - 10_000
    ensures BumpBPS(v, bps) * 10_000 <= v * (10_000 + bps) < (BumpBPS(v, bps) + 1) * 10_000
  {
    assert WrapInt64(10_000 + bps) == 10_000 + bps;
  }

  /** What a bump gives, if it is not refused. */
  lemma BumpedFeesAre(policy: GasPolicy, fees: FeeCaps)
    requires BumpChecked(policy, fees).Success?
    ensures var r := BumpChecked(policy, fees).value;
            && fees.maxFee.Some? && fees.maxTip.Some? && r.maxFee.Some? && r.maxTip.Some?
            && IsCapped(r.maxFee.value, BumpBPS(fees.maxFee.value, policy.bumpBPS), policy.maxFeeCap)
            && IsCapped(r.maxTip.value, BumpBPS(fees.maxTip.value, policy.bumpBPS), policy.maxTipCap)
  {
  }

  /** The first fees: the suggested tip, capped, and on top of it the suggested gas price, capped. */
  lemma FirstFeesAre(policy: GasPolicy, gasPrice: int, tipCap: int)
    requires FirstFees(policy, gasPrice, tipCap).Success?
    ensures var r := FirstFees(policy, gasPrice, tipCap).value;
            && r.maxFee.Some? && r.maxTip.Some?
            && IsCapped(r.maxTip.value, tipCap, policy.maxTipCap)
            && IsCapped(r.maxFee.value, gasPrice + r.maxTip.value, policy.maxFeeCap)
  {
  }

  lemma MulMonotone(v: int, w: int, m: int)
    requires 0 <= v <= w && 0 <= m
    ensures 0 <= v * m <= w * m
  {
  }

  /** The sum 10000 + bps wraps to a negative factor, and no positive fee survives it. */
  lemma OverflowingBumpIsNegative(v: int, bps: int64)
    requires v > 0 && bps > MAX_INT64 - 10_000
    ensures BumpBPS(v, bps) < 0
  {
    var factor: int := WrapInt64(10_000 + bps);
    assert factor == 10_000 + bps - TWO_TO_THE_64 by {
      assert (10_000 + bps) % TWO_TO_THE_64 == 10_000 + bps;
    }
    assert v * factor <= factor by {
      MulMonotone(1, v, -factor);
      assert v * -factor == -(v * factor);
    }
  }

  /** A bump of valid fees by a non-negative amount under positive caps is refused exactly
      when the fee cap lies below the tip it has to cover (or the int64 factor overflows). */
  lemma BumpFailsExactlyWhen(policy: GasPolicy, fees: FeeCaps)
    requires ValidateCaps(policy) == None && ValidFees(fees) && policy.bumpBPS >= 0
    ensures BumpChecked(policy, fees).Failure? <==>
            || policy.bumpBPS > MAX_INT64 - 10_000
            || !WithinCap(CapBig(BumpBPS(fees.maxTip.value, policy.bumpBPS), policy.maxTipCap), policy.maxFeeCap)
  {
    if SoundBump(policy.bumpBPS) {
      BumpFacts(fees.maxTip.value, fees.maxFee.value, policy.bumpBPS);
    } else {
      OverflowingBumpIsNegative(fees.maxFee.value, policy.bumpBPS);
    }
  }

  /** First fees from positive suggestions are refused exactly when the fee cap lies
      below the capped tip. */
  lemma FirstFeesFailExactlyWhen(policy: GasPolicy, gasPrice: int, tipCap: int)
    requires ValidateCaps(policy) == None && gasPrice > 0 && tipCap > 0
    ensures FirstFees(policy, gasPrice, tipCap).Failure? <==>
            !WithinCap(CapBig(tipCap, policy.maxTipCap), policy.maxFeeCap)
  {
  }
}
