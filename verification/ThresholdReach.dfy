/** Which thresholds can be reached one accepted change at a time, and why a change that was
    acceptable when it was requested is looked at again when it is confirmed. */
module ThresholdReach {
  import opened Wrappers
  import opened Core
  import opened Overrides
  import Units

  datatype Change = Change(key: string, value: string)

  /** The thresholds in force for one module. */
  function SharePricePair(config: ModuleConfig, t: Table): (int, int)
    requires SharePriceThresholdConfig(config).Success?
  {
    var m := SharePriceFrom(SharePriceThresholdConfig(config).value, t);
    (m.warnBPS, m.urgentBPS)
  }

  function LiquidityPair(config: ModuleConfig, t: Table, decimals: nat): (Option<int>, Option<int>)
    requires LiquidityThresholdConfig(config, decimals).Success?
  {
    var m := LiquidityFrom(LiquidityThresholdConfig(config, decimals).value, t, decimals);
    (m.idleWarn, m.idleUrgent)
  }

  /** Lower the warning first if it then still lies below the urgent threshold in force;
      otherwise raise the urgent threshold first. */
  function SharePricePath(urgent: int, newWarn: nat, newUrgent: nat): (Change, Change) {
    var setWarn := Change(KEY_LOSS_WARN, Units.NatText(newWarn));
    var setUrgent := Change(KEY_LOSS_URGENT, Units.NatText(newUrgent));
    if newWarn <= urgent then (setWarn, setUrgent) else (setUrgent, setWarn)
  }

  function LiquidityPath(urgent: int, newWarn: nat, newUrgent: nat, decimals: nat): (Change, Change) {
    var setWarn := Change(KEY_IDLE_WARN, Units.UnitsText(newWarn, decimals));
    var setUrgent := Change(KEY_IDLE_URGENT, Units.UnitsText(newUrgent, decimals));
    if newWarn >= urgent then (setWarn, setUrgent) else (setUrgent, setWarn)
  }

  lemma BPSTextParses(n: nat)
    requires 1 <= n <= 10_000
    ensures ParseThresholdBPS(Units.NatText(n)) == Success(n)
  {
    var s := Units.NatText(n);
    assert Units.IsDigit(s[0]);
  }

  lemma UnitsTextParses(n: nat, decimals: nat)
    requires n > 0
    ensures ParseThresholdAssetUnits(Units.UnitsText(n, decimals), decimals) == Success(n)
  {
    Units.ParseInvertsText(n, decimals);
  }

  /** One share price change: it is accepted exactly when the new pair is in order, and then
      that is the pair in force. */
  lemma SharePriceChange(config: ModuleConfig, t: Table, key: string, n: nat, decimals: nat)
    requires Consistent(MODULE_SHARE_PRICE_LOSS, config, t, decimals)
    requires (key == KEY_LOSS_WARN || key == KEY_LOSS_URGENT) && 1 <= n <= 10_000
    ensures SharePriceThresholdConfig(config).Success?
    ensures var (warn, urgent) := SharePricePair(config, t);
            var t' := t[(MODULE_SHARE_PRICE_LOSS, key) := Units.NatText(n)];
            var newWarn := if key == KEY_LOSS_WARN then n else warn;
            var newUrgent := if key == KEY_LOSS_URGENT then n else urgent;
            && 1 <= warn <= urgent
            && SharePricePair(config, t') == (newWarn, newUrgent)
            && (Acceptable(MODULE_SHARE_PRICE_LOSS, key, Units.NatText(n), Some(config), t, decimals)
                <==> newWarn <= newUrgent)
            && (Consistent(MODULE_SHARE_PRICE_LOSS, config, t', decimals) <==> newWarn <= newUrgent)
  {
    KeysDiffer();
    BPSTextParses(n);
    var t' := t[(MODULE_SHARE_PRICE_LOSS, key) := Units.NatText(n)];
    TableStaysValid(t, MODULE_SHARE_PRICE_LOSS, key, Units.NatText(n), 0);
  }

  lemma TableStaysValid(t: Table, moduleID: string, key: string, value: string, decimals: nat)
    requires TableValid(t, moduleID, decimals) && ValidateThresholdValue(key, value, decimals).None?
    ensures TableValid(t[(moduleID, key) := value], moduleID, decimals)
  {
  }

  /** From any consistent share price thresholds any other valid pair is reached by two
      accepted changes, and the thresholds are consistent in between. */
  lemma SharePriceReachable(config: ModuleConfig, t: Table, newWarn: nat, newUrgent: nat, decimals: nat)
    requires Consistent(MODULE_SHARE_PRICE_LOSS, config, t, decimals)
    requires 1 <= newWarn <= newUrgent <= 10_000
    ensures SharePriceThresholdConfig(config).Success?
    ensures var (first, second) := SharePricePath(SharePricePair(config, t).1, newWarn, newUrgent);
            var between := t[(MODULE_SHARE_PRICE_LOSS, first.key) := first.value];
            var after := between[(MODULE_SHARE_PRICE_LOSS, second.key) := second.value];
            && Acceptable(MODULE_SHARE_PRICE_LOSS, first.key, first.value, Some(config), t, decimals)
            && Consistent(MODULE_SHARE_PRICE_LOSS, config, between, decimals)
            && Acceptable(MODULE_SHARE_PRICE_LOSS, second.key, second.value, Some(config), between, decimals)
            && SharePricePair(config, after) == (newWarn, newUrgent)
  {
    KeysDiffer();
    SharePriceChange(config, t, KEY_LOSS_WARN, newWarn, decimals);
    SharePriceChange(config, t, KEY_LOSS_URGENT, newUrgent, decimals);
    if newWarn <= SharePricePair(config, t).1 {
      SharePriceChange(config, t[(MODULE_SHARE_PRICE_LOSS, KEY_LOSS_WARN) := Units.NatText(newWarn)], KEY_LOSS_URGENT,
                       newUrgent, decimals);
    } else {
      SharePriceChange(config, t[(MODULE_SHARE_PRICE_LOSS, KEY_LOSS_URGENT) := Units.NatText(newUrgent)], KEY_LOSS_WARN,
                       newWarn, decimals);
    }
  }

  /** One liquidity change: warnings come at higher idle assets than alarms. */
  lemma LiquidityChange(config: ModuleConfig, t: Table, key: string, n: nat, decimals: nat)
    requires Consistent(MODULE_WITHDRAW_LIQUIDITY, config, t, decimals)
    requires (key == KEY_IDLE_WARN || key == KEY_IDLE_URGENT) && n > 0
    ensures LiquidityThresholdConfig(config, decimals).Success?
    ensures var (warn, urgent) := LiquidityPair(config, t, decimals);
            var t' := t[(MODULE_WITHDRAW_LIQUIDITY, key) := Units.UnitsText(n, decimals)];
            && warn.Some? && urgent.Some? && warn.value >= urgent.value > 0
            && var newWarn := if key == KEY_IDLE_WARN then n else warn.value;
               var newUrgent := if key == KEY_IDLE_URGENT then n else urgent.value;
               && LiquidityPair(config, t', decimals) == (Some(newWarn), Some(newUrgent))
               && (Acceptable(MODULE_WITHDRAW_LIQUIDITY, key, Units.UnitsText(n, decimals), Some(config), t, decimals)
                   <==> newWarn >= newUrgent)
               && (Consistent(MODULE_WITHDRAW_LIQUIDITY, config, t', decimals) <==> newWarn >= newUrgent)
  {
    KeysDiffer();
    UnitsTextParses(n, decimals);
    TableStaysValid(t, MODULE_WITHDRAW_LIQUIDITY, key, Units.UnitsText(n, decimals), decimals);
    LiquidityVerdict(config, t, decimals);
    LiquidityVerdict(config, t[(MODULE_WITHDRAW_LIQUIDITY, key) := Units.UnitsText(n, decimals)], decimals);
    LiquidityPairChange(config, t, key, Units.UnitsText(n, decimals), n, decimals);
  }

  lemma LiquidityVerdict(config: ModuleConfig, t: Table, decimals: nat)
    requires LiquidityThresholdConfig(config, decimals).Success?
    ensures var (warn, urgent) := LiquidityPair(config, t, decimals);
            Consistent(MODULE_WITHDRAW_LIQUIDITY, config, t, decimals) <==>
            TableValid(t, MODULE_WITHDRAW_LIQUIDITY, decimals) && warn.Some? && urgent.Some?
              && warn.value >= urgent.value > 0
  {
    KeysDiffer();
  }

  lemma LiquidityPairChange(config: ModuleConfig, t: Table, key: string, text: string, n: nat, decimals: nat)
    requires LiquidityThresholdConfig(config, decimals).Success?
    requires (key == KEY_IDLE_WARN || key == KEY_IDLE_URGENT) && ParseThresholdAssetUnits(text, decimals) == Success(n)
    ensures var (warn, urgent) := LiquidityPair(config, t, decimals);
            LiquidityPair(config, t[(MODULE_WITHDRAW_LIQUIDITY, key) := text], decimals)
            == (if key == KEY_IDLE_WARN then Some(n) else warn, if key == KEY_IDLE_URGENT then Some(n) else urgent)
  {
    KeysDiffer();
  }

  lemma LiquidityReachable(config: ModuleConfig, t: Table, newWarn: nat, newUrgent: nat, decimals: nat)
    requires Consistent(MODULE_WITHDRAW_LIQUIDITY, config, t, decimals)
    requires newWarn >= newUrgent > 0
    ensures LiquidityThresholdConfig(config, decimals).Success?
    ensures var (warn, urgent) := LiquidityPair(config, t, decimals);
            && urgent.Some?
            && var (first, second) := LiquidityPath(urgent.value, newWarn, newUrgent, decimals);
               var between := t[(MODULE_WITHDRAW_LIQUIDITY, first.key) := first.value];
               var after := between[(MODULE_WITHDRAW_LIQUIDITY, second.key) := second.value];
               && Acceptable(MODULE_WITHDRAW_LIQUIDITY, first.key, first.value, Some(config), t, decimals)
               && Consistent(MODULE_WITHDRAW_LIQUIDITY, config, between, decimals)
               && Acceptable(MODULE_WITHDRAW_LIQUIDITY, second.key, second.value, Some(config), between, decimals)
               && LiquidityPair(config, after, decimals) == (Some(newWarn), Some(newUrgent))
  {
    KeysDiffer();
    LiquidityChange(config, t, KEY_IDLE_WARN, newWarn, decimals);
    LiquidityChange(config, t, KEY_IDLE_URGENT, newUrgent, decimals);
    if newWarn >= LiquidityPair(config, t, decimals).1.value {
      LiquidityChange(config, t[(MODULE_WITHDRAW_LIQUIDITY, KEY_IDLE_WARN) := Units.UnitsText(newWarn, decimals)],
                      KEY_IDLE_URGENT, newUrgent, decimals);
    } else {
      LiquidityChange(config, t[(MODULE_WITHDRAW_LIQUIDITY, KEY_IDLE_URGENT) := Units.UnitsText(newUrgent, decimals)],
                      KEY_IDLE_WARN, newWarn, decimals);
    }
  }

  // ----- why confirm validates again -----

  /** Raising the warning and lowering the alarm past each other: both requests are acceptable
      on their own, and after either one of them the other no longer is. */
  lemma JointlyInconsistentRequests(config: ModuleConfig, t: Table, newWarn: nat, newUrgent: nat, decimals: nat)
    requires Consistent(MODULE_SHARE_PRICE_LOSS, config, t, decimals)
    requires SharePriceThresholdConfig(config).Success?
    requires SharePricePair(config, t).0 <= newUrgent < newWarn <= SharePricePair(config, t).1
    requires 1 <= newUrgent && newWarn <= 10_000
    ensures var setWarn, setUrgent := Units.NatText(newWarn), Units.NatText(newUrgent);
            && Acceptable(MODULE_SHARE_PRICE_LOSS, KEY_LOSS_WARN, setWarn, Some(config), t, decimals)
            && Acceptable(MODULE_SHARE_PRICE_LOSS, KEY_LOSS_URGENT, setUrgent, Some(config), t, decimals)
            && !Acceptable(MODULE_SHARE_PRICE_LOSS, KEY_LOSS_URGENT, setUrgent, Some(config),
                           t[(MODULE_SHARE_PRICE_LOSS, KEY_LOSS_WARN) := setWarn], decimals)
            && !Acceptable(MODULE_SHARE_PRICE_LOSS, KEY_LOSS_WARN, setWarn, Some(config),
                           t[(MODULE_SHARE_PRICE_LOSS, KEY_LOSS_URGENT) := setUrgent], decimals)
  {
    KeysDiffer();
    SharePriceChange(config, t, KEY_LOSS_WARN, newWarn, decimals);
    SharePriceChange(config, t, KEY_LOSS_URGENT, newUrgent, decimals);
    SharePriceChange(config, t[(MODULE_SHARE_PRICE_LOSS, KEY_LOSS_WARN) := Units.NatText(newWarn)], KEY_LOSS_URGENT,
                     newUrgent, decimals);
    SharePriceChange(config, t[(MODULE_SHARE_PRICE_LOSS, KEY_LOSS_URGENT) := Units.NatText(newUrgent)], KEY_LOSS_WARN,
                     newWarn, decimals);
  }

  // ----- which texts are accepted -----

  /** Any text for a share price threshold: accepted exactly when it is an integer from 1 to 10000
      that leaves the pair in order. */
  lemma SharePriceTextAccepted(config: ModuleConfig, t: Table, key: string, value: string, decimals: nat)
    requires Consistent(MODULE_SHARE_PRICE_LOSS, config, t, decimals)
    requires key == KEY_LOSS_WARN || key == KEY_LOSS_URGENT
    ensures SharePriceThresholdConfig(config).Success?
    ensures var (warn, urgent) := SharePricePair(config, t); var parsed := Units.ParseInt64(value);
            Acceptable(MODULE_SHARE_PRICE_LOSS, key, value, Some(config), t, decimals) <==>
            && parsed.Some? && 1 <= parsed.value <= 10_000
            && (if key == KEY_LOSS_WARN then parsed.value <= urgent else warn <= parsed.value)
  {
    KeysDiffer();
    if ValidateThresholdValue(key, value, 0).None? {
      TableStaysValid(t, MODULE_SHARE_PRICE_LOSS, key, value, 0);
    }
  }

  /** Any text for an idle liquidity threshold: accepted exactly when it is a positive decimal
      amount that leaves the pair in order. */
  lemma LiquidityTextAccepted(config: ModuleConfig, t: Table, key: string, value: string, decimals: nat)
    requires Consistent(MODULE_WITHDRAW_LIQUIDITY, config, t, decimals)
    requires key == KEY_IDLE_WARN || key == KEY_IDLE_URGENT
    ensures LiquidityThresholdConfig(config, decimals).Success?
    ensures var (warn, urgent) := LiquidityPair(config, t, decimals);
            var parsed := Units.ParseDecimalUnits(value, decimals);
            && warn.Some? && urgent.Some?
            && (Acceptable(MODULE_WITHDRAW_LIQUIDITY, key, value, Some(config), t, decimals) <==>
                && parsed.Success? && parsed.value > 0
                && (if key == KEY_IDLE_WARN then parsed.value >= urgent.value else warn.value >= parsed.value))
  {
    KeysDiffer();
    LiquidityVerdict(config, t, decimals);
    if ValidateThresholdValue(key, value, decimals).None? {
      TableStaysValid(t, MODULE_WITHDRAW_LIQUIDITY, key, value, decimals);
      LiquidityPairChange(config, t, key, value, ParseThresholdAssetUnits(value, decimals).value, decimals);
      LiquidityVerdict(config, t[(MODULE_WITHDRAW_LIQUIDITY, key) := value], decimals);
    }
  }

  /** Any text for the severity of a vault state change: accepted exactly when it is one of two. */
  lemma SeverityTextAccepted(config: ModuleConfig, t: Table, value: string, decimals: nat)
    requires Consistent(MODULE_VAULT_STATE, config, t, decimals)
    ensures Acceptable(MODULE_VAULT_STATE, KEY_SEVERITY, value, Some(config), t, decimals)
            <==> value == "warn" || value == "urgent"
  {
    KeysDiffer();
    if ValidateThresholdValue(KEY_SEVERITY, value, 0).None? {
      TableStaysValid(t, MODULE_VAULT_STATE, KEY_SEVERITY, value, 0);
    }
  }
}
