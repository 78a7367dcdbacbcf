/** The share price module: two floored divisions and a threshold
    (internal/monitor/modules/morpho/share_price.go, internal/morpho/factory.go). */
module SharePrice {
  import opened Wrappers
  import opened Ints
  import opened Core
  import opened Units

  datatype ModuleError =
    | BaselineNotPositive | WarnNotPositive | UrgentNotPositive | WarnAboveUrgent | ReaderRequired
    | ReadFailed | PriceNotPositive

  datatype SharePriceModule = SharePriceModule(
    baseline: Option<int>, previous: Option<int>, warnBPS: int64, urgentBPS: int64, hasReader: bool)

  function ValidateConfig(m: SharePriceModule): (r: Option<ModuleError>)
    ensures r.None? <==> m.baseline.Some? && m.baseline.value > 0 && 0 < m.warnBPS <= m.urgentBPS && m.hasReader
  {
    if m.baseline.None? || m.baseline.value <= 0 then Some(BaselineNotPositive)
    else if m.warnBPS <= 0 then Some(WarnNotPositive)
    else if m.urgentBPS <= 0 then Some(UrgentNotPositive)
    else if m.warnBPS > m.urgentBPS then Some(WarnAboveUrgent)
    else if !m.hasReader then Some(ReaderRequired)
    else None
  }

  /** Assets per share, scaled by the asset's decimals and rounded down. */
  function CurrentSharePrice(totalAssets: Result<int, Unseen>, totalSupply: Result<int, Unseen>, decimals: nat)
    : Result<int, Unseen>
  {
    if totalAssets.Failure? || totalSupply.Failure? || totalSupply.value <= 0 then Failure(Unseen)
    else Success(totalAssets.value * Pow10(decimals) / totalSupply.value)
  }

  function LossBPS(reference: int, current: int): int64
    requires reference > 0
  {
    if current >= reference then 0 else WrapInt64((reference - current) * 10_000 / reference)
  }

  function LossFinding(severity: Severity, baselineLoss: int, previousLoss: int): Finding {
    Finding(FINDING_SHARE_PRICE_LOSS, severity,
            if severity.Urgent? then "share price loss crossed urgent threshold"
            else "share price loss crossed warn threshold",
            map["baseline_loss_bps" := Number(baselineLoss), "previous_loss_bps" := Number(previousLoss)])
  }

  /** The loss against the previous price, if there is a usable one. */
  function PreviousLoss(m: SharePriceModule, price: int): int64 {
    if m.previous.Some? && m.previous.value > 0 then LossBPS(m.previous.value, price) else 0
  }

  predicate Observable(m: SharePriceModule, reading: Result<Option<int>, Unseen>) {
    ValidateConfig(m).None? && reading.Success? && reading.value.Some? && reading.value.value > 0
  }

  /** What the module has to say about a price: the status follows the unrounded losses, and
      a status other than OK comes with exactly one finding. */
  predicate Describes(m: SharePriceModule, price: int, now: int, result: MonitorResult)
    requires ValidateConfig(m).None?
  {
    && result.moduleID == MODULE_SHARE_PRICE_LOSS && result.observedAt == now
    && result.metrics == [Metric("share_price_asset_units", Number(price), "asset_units")]
    && Honest(result) && result.status != UNKNOWN
    && (result.status == URGENT <==> LossReaches(m, price, m.urgentBPS))
    && (result.status == WARN <==> LossReaches(m, price, m.warnBPS) && !LossReaches(m, price, m.urgentBPS))
    && result.findings == if result.status == OK then [] else
         [Finding("share_price_loss", if result.status == URGENT then Urgent else Warn,
                  if result.status == URGENT then "share price loss crossed urgent threshold"
                  else "share price loss crossed warn threshold",
                  map["baseline_loss_bps" := Number(LossBPS(m.baseline.value, price)),
                      "previous_loss_bps" := Number(PreviousLoss(m, price))])]
  }

  method Monitor(m: SharePriceModule, reading: Result<Option<int>, Unseen>, now: int)
    returns (r: Result<MonitorResult, ModuleError>)
    ensures r.Success? <==> Observable(m, reading)
    ensures r.Success? ==> Describes(m, reading.value.value, now, r.value)
    ensures ValidateConfig(m).Some? ==> r == Failure(ValidateConfig(m).value)
  {
    var problem := ValidateConfig(m);
    if problem.Some? {
      return Failure(problem.value);
    }
    if reading.Failure? {
      return Failure(ReadFailed);
    }
    if reading.value.None? || reading.value.value <= 0 {
      return Failure(PriceNotPositive);
    }
    var current := reading.value.value;
    var baselineLoss := LossBPS(m.baseline.value, current);
    var previousLoss: int64 := 0;
    if m.previous.Some? && m.previous.value > 0 {
      previousLoss := LossBPS(m.previous.value, current);
    }
    var status := OK;
    var findings := [];
    if baselineLoss >= m.urgentBPS || previousLoss >= m.urgentBPS {
      status := URGENT;
      findings := findings + [LossFinding(Urgent, baselineLoss, previousLoss)];
      assert findings[0].severity == Urgent;
    } else if baselineLoss >= m.warnBPS || previousLoss >= m.warnBPS {
      status := WARN;
      findings := findings + [LossFinding(Warn, baselineLoss, previousLoss)];
    }
    LossDecision(m.baseline.value, current, m.urgentBPS);
    LossDecision(m.baseline.value, current, m.warnBPS);
    if m.previous.Some? && m.previous.value > 0 {
      LossDecision(m.previous.value, current, m.urgentBPS);
      LossDecision(m.previous.value, current, m.warnBPS);
    }
    return Success(MonitorResult(MODULE_SHARE_PRICE_LOSS, status, now,
                                 [Metric("share_price_asset_units", Number(current), "asset_units")], findings));
  }

  /** The price has lost at least threshold basis points of a reference, with no rounding. */
  predicate Lost(reference: int, price: int, threshold: int) {
    price * 10_000 <= reference * (10_000 - threshold)
  }

  predicate LossReaches(m: SharePriceModule, price: int, threshold: int) {
    || (m.baseline.Some? && Lost(m.baseline.value, price, threshold))
    || (m.previous.Some? && m.previous.value > 0 && Lost(m.previous.value, price, threshold))
  }

  // ----- exactness -----

  /** The rounded loss reaches a threshold exactly when the unrounded loss does; the result is
      between 0 and 9999, so nothing is lost to 64 bits and no threshold of 10000 ever fires. */
  lemma LossDecision(reference: int, price: int, threshold: int)
    requires reference > 0 && price > 0 && threshold >= 1
    ensures 0 <= LossBPS(reference, price) <= 9_999
    ensures LossBPS(reference, price) >= threshold <==> Lost(reference, price, threshold)
  {
    if price < reference {
      var scaled := (reference - price) * 10_000;
      var loss := scaled / reference;
      assert reference * loss <= scaled < reference * (loss + 1);
      assert 0 <= loss < 10_000 by {
        if loss >= 10_000 { MulLeft(reference, 10_000, loss); }
        if loss <= -1 { MulLeft(reference, loss + 1, 0); }
      }
      if loss >= threshold {
        MulLeft(reference, threshold, loss);
      } else {
        MulLeft(reference, loss + 1, threshold);
      }
      assert reference * (10_000 - threshold) == reference * 10_000 - reference * threshold;
    } else {
      MulLeft(reference, 10_000 - threshold, 9_999);
    }
  }

  lemma MulLeft(m: int, a: int, b: int)
    requires m > 0 && a <= b
    ensures m * a <= m * b
  {
  }

  /** Through both floors: the price computed from the vault's totals loses at least threshold
      basis points exactly when the scaled assets fall short of the bound times the supply. */
  lemma LossDecisionOnChain(reference: int, totalAssets: int, totalSupply: int, decimals: nat, threshold: int)
    requires reference > 0 && totalSupply > 0 && threshold >= 1
    requires CurrentSharePrice(Success(totalAssets), Success(totalSupply), decimals).value > 0
    ensures var price := CurrentSharePrice(Success(totalAssets), Success(totalSupply), decimals).value;
            LossBPS(reference, price) >= threshold <==>
            totalAssets * Pow10(decimals) < (reference * (10_000 - threshold) / 10_000 + 1) * totalSupply
  {
    var scaled := totalAssets * Pow10(decimals);
    var price := scaled / totalSupply;
    var bound := reference * (10_000 - threshold) / 10_000;
    LossDecision(reference, price, threshold);
    assert totalSupply * price <= scaled < totalSupply * (price + 1);
    if price <= bound {
      MulLeft(totalSupply, price + 1, bound + 1);
    } else {
      MulLeft(totalSupply, bound + 1, price);
    }
    assert totalSupply * (bound + 1) == (bound + 1) * totalSupply;
  }

  /** A lower price never shows a smaller loss, and neither does a higher reference. */
  lemma LossIsMonotone(reference: int, reference': int, price: int, price': int)
    requires 0 < reference <= reference' && 0 < price' <= price
    ensures LossBPS(reference, price) <= LossBPS(reference', price')
  {
    var loss := LossBPS(reference, price);
    LossDecision(reference', price', 1);
    if loss >= 1 {
      LossDecision(reference, price, loss);
      MulLeft(10_000 - loss, reference, reference');
      LossDecision(reference', price', loss);
    }
  }

  /** The price is the scaled assets per share, rounded down, and there is one exactly if both
      totals can be read and there are shares. */
  lemma PriceExactlyWhen(totalAssets: Result<int, Unseen>, totalSupply: Result<int, Unseen>, decimals: nat)
    ensures var price := CurrentSharePrice(totalAssets, totalSupply, decimals);
            && (price.Success? <==> totalAssets.Success? && totalSupply.Success? && totalSupply.value > 0)
            && (price.Success? ==>
                  price.value * totalSupply.value
                  <= totalAssets.value * Pow10(decimals) < (price.value + 1) * totalSupply.value)
  {
    if totalAssets.Success? && totalSupply.Success? && totalSupply.value > 0 {
      var scaled, n := totalAssets.value * Pow10(decimals), totalSupply.value;
      assert n * (scaled / n) <= scaled < n * (scaled / n + 1);
    }
  }

  /** The second loss is that against the previous price, where there is a positive one. */
  lemma PreviousLossDecision(m: SharePriceModule, price: int, threshold: int)
    requires price > 0 && threshold >= 1
    ensures 0 <= PreviousLoss(m, price) <= 9_999
    ensures PreviousLoss(m, price) >= threshold
            <==> m.previous.Some? && m.previous.value > 0 && Lost(m.previous.value, price, threshold)
  {
    if m.previous.Some? && m.previous.value > 0 {
      LossDecision(m.previous.value, price, threshold);
    }
  }
}
