/** What repeated replacement does to the fees: the whole ladder of bumps, not one step. */
module GasLadder {
  import opened Wrappers
  import opened Ints
  import opened Gas

  /** The fees of the k-th replacement, as the service computes them one bump after another. */
  function Ladder(policy: GasPolicy, fees: FeeCaps, k: nat): Result<FeeCaps, FeeError> {
    if k == 0 then Success(fees)
    else
      match Ladder(policy, fees, k - 1)
      case Failure(e) => Failure(e)
      case Success(previous) => BumpChecked(policy, previous)
  }

  /** One fee bumped k times with no cap in the way. */
  function UncappedBump(v: int, bps: int64, k: nat): int {
    if k == 0 then v else BumpBPS(UncappedBump(v, bps, k - 1), bps)
  }

  function Pow(base: int, k: nat): int {
    if k == 0 then 1 else base * Pow(base, k - 1)
  }

  lemma {:induction false} UncappedBumpClimbs(v: int, bps: int64, k: nat)
    requires SoundBump(bps) && v > 0
    ensures UncappedBump(v, bps, k) >= v
    ensures v * bps < 10_000 ==> UncappedBump(v, bps, k) == v
    ensures v * bps >= 10_000 ==> UncappedBump(v, bps, k) >= v + k
  {
    if k > 0 {
      UncappedBumpClimbs(v, bps, k - 1);
      var u := UncappedBump(v, bps, k - 1);
      BumpFacts(u, u, bps);
      MulMonotone(v, u, bps);
    }
  }

  /** Bumping under a cap at every step is bumping freely and capping once. */
  lemma {:induction false} CapCommutesWithBump(v: int, bps: int64, cap: Option<int>, k: nat)
    requires SoundBump(bps) && v > 0 && (cap.Some? ==> cap.value > 0)
    ensures CapBig(BumpBPS(CapBig(UncappedBump(v, bps, k), cap), bps), cap) == CapBig(UncappedBump(v, bps, k + 1), cap)
  {
    UncappedBumpClimbs(v, bps, k);
    var u := UncappedBump(v, bps, k);
    BumpFacts(u, u, bps);
    if cap.Some? && cap.value < u {
      BumpFacts(cap.value, u, bps);
    }
  }

  /** The k-th replacement fee is the k-fold uncapped bump of the first fee, capped once. */
  lemma {:induction false} LadderIsCappedOnce(policy: GasPolicy, fees: FeeCaps, k: nat)
    requires SoundBump(policy.bumpBPS) && ValidFees(fees) && WithinCaps(policy, fees)
    requires Ladder(policy, fees, k).Success?
    ensures var f := Ladder(policy, fees, k).value;
            && f.maxFee == Some(CapBig(UncappedBump(fees.maxFee.value, policy.bumpBPS, k), policy.maxFeeCap))
            && f.maxTip == Some(CapBig(UncappedBump(fees.maxTip.value, policy.bumpBPS, k), policy.maxTipCap))
            && ValidFees(f) && WithinCaps(policy, f)
  {
    if k > 0 {
      LadderIsCappedOnce(policy, fees, k - 1);
      CapCommutesWithBump(fees.maxFee.value, policy.bumpBPS, policy.maxFeeCap, k - 1);
      CapCommutesWithBump(fees.maxTip.value, policy.bumpBPS, policy.maxTipCap, k - 1);
    }
  }

  /** The ladder breaks at or before step k exactly when the k-fold bumped, capped tip
      has outgrown the fee cap. */
  lemma {:induction false} LadderFailsExactlyWhen(policy: GasPolicy, fees: FeeCaps, k: nat)
    requires ValidateCaps(policy) == None && SoundBump(policy.bumpBPS) && ValidFees(fees) && WithinCaps(policy, fees)
    ensures Ladder(policy, fees, k).Failure? <==>
            !WithinCap(CapBig(UncappedBump(fees.maxTip.value, policy.bumpBPS, k), policy.maxTipCap), policy.maxFeeCap)
  {
    if k > 0 {
      LadderFailsExactlyWhen(policy, fees, k - 1);
      UncappedBumpClimbs(fees.maxTip.value, policy.bumpBPS, k - 1);
      var u := UncappedBump(fees.maxTip.value, policy.bumpBPS, k - 1);
      BumpFacts(u, u, policy.bumpBPS);
      if Ladder(policy, fees, k - 1).Success? {
        LadderIsCappedOnce(policy, fees, k - 1);
        CapCommutesWithBump(fees.maxTip.value, policy.bumpBPS, policy.maxTipCap, k - 1);
        BumpFailsExactlyWhen(policy, Ladder(policy, fees, k - 1).value);
      }
    }
  }

  /** With a fee cap that is not below the tip cap, no replacement is ever refused. */
  lemma LadderNeverFails(policy: GasPolicy, fees: FeeCaps, k: nat)
    requires ValidateCaps(policy) == None && SoundBump(policy.bumpBPS) && ValidFees(fees) && WithinCaps(policy, fees)
    requires policy.maxFeeCap.Some? ==> policy.maxTipCap.Some? && policy.maxTipCap.value <= policy.maxFeeCap.value
    ensures Ladder(policy, fees, k).Success?
  {
    LadderFailsExactlyWhen(policy, fees, k);
  }

  /** One fee of the ladder over time: it never falls, it stands still forever when a bump
      rounds to nothing, and otherwise it climbs strictly until it reaches its cap, which
      takes at most cap - v replacements, and stays there. */
  lemma {:induction false} LadderFeeOverTime(v: int, bps: int64, cap: Option<int>, k: nat)
    requires SoundBump(bps) && v > 0 && WithinCap(v, cap)
    ensures var now, next := CapBig(UncappedBump(v, bps, k), cap), CapBig(UncappedBump(v, bps, k + 1), cap);
            && v <= now <= next
            && (v * bps < 10_000 ==> now == next == v)
            && (v * bps >= 10_000 ==> now < next || (cap.Some? && now == next == cap.value))
            && (v * bps >= 10_000 && cap.Some? && k >= cap.value - v ==> now == cap.value)
  {
    UncappedBumpClimbs(v, bps, k);
    UncappedBumpClimbs(v, bps, k + 1);
    var u := UncappedBump(v, bps, k);
    BumpFacts(u, u, bps);
    MulMonotone(v, u, bps);
  }

  /** Rounding only ever lowers the ladder: it stays under the exact geometric growth. */
  lemma {:induction false} LadderGrowthBound(v: int, bps: int64, k: nat)
    requires SoundBump(bps) && v > 0
    ensures UncappedBump(v, bps, k) * Pow(10_000, k) <= v * Pow(10_000 + bps, k)
    ensures Pow(10_000, k) > 0
  {
    if k > 0 {
      LadderGrowthBound(v, bps, k - 1);
      UncappedBumpClimbs(v, bps, k - 1);
      var u, p, q := UncappedBump(v, bps, k - 1), Pow(10_000, k - 1), Pow(10_000 + bps, k - 1);
      BumpFacts(u, u, bps);
      GrowthStep(BumpBPS(u, bps), u, v, 10_000 + bps, p, q);
    }
  }

  lemma GrowthStep(next: int, u: int, v: int, factor: int, p: int, q: int)
    requires next * 10_000 <= u * factor && u * p <= v * q && p > 0 && factor > 0
    ensures next * (10_000 * p) <= v * (factor * q)
  {
    LeftFactor(next * 10_000, u * factor, p);
    LeftFactor(u * p, v * q, factor);
    assert next * (10_000 * p) == (next * 10_000) * p;
    assert (u * factor) * p == (u * p) * factor;
    assert v * (factor * q) == (v * q) * factor;
  }

  lemma LeftFactor(a: int, b: int, m: int)
    requires a <= b && m >= 0
    ensures a * m <= b * m
  {
  }
}
