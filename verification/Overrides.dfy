/** Threshold overrides: how a stored list of them changes a module, and which new one is
    acceptable (internal/morpho/overrides.go, internal/config/module_helpers.go). */
module Overrides {
  import opened Wrappers
  import opened Ints
  import opened Core
  import opened Units
  import SharePrice
  import Liquidity
  import VaultState

  const KEY_LOSS_WARN := "loss_warn_bps"
  const KEY_LOSS_URGENT := "loss_urgent_bps"
  const KEY_IDLE_WARN := "idle_warn_threshold_usdc"
  const KEY_IDLE_URGENT := "idle_urgent_threshold_usdc"
  const KEY_SEVERITY := "change_severity"

  datatype ThresholdError =
    | NotAnInteger | BPSOutOfRange | UnitsMalformed(units: UnitsError) | UnitsNotPositive | SeverityUnknown
    | ConfigFieldInvalid(key: string) | Inconsistent

  datatype ThresholdOverride = ThresholdOverride(moduleID: string, key: string, value: string)

  /** A decoded configuration value: an integer, a text, or something else. */
  datatype ConfigValue = IntegerValue(n: int64) | TextValue(text: string) | OtherValue

  type ModuleConfig = map<string, ConfigValue>

  // ----- parsing one value -----

  function ParseThresholdBPS(value: string): (r: Result<int64, ThresholdError>)
    ensures r.Success? ==> 1 <= r.value <= 10_000 && ParseInt64(value) == Some(r.value)
    ensures ParseInt64(value).Some? && 1 <= ParseInt64(value).value <= 10_000 ==> r.Success?
  {
    var parsed := ParseInt64(value);
    if parsed.None? then Failure(NotAnInteger)
    else if !ValidBPS(parsed.value) || parsed.value <= 0 then Failure(BPSOutOfRange)
    else Success(parsed.value)
  }

  function ParseThresholdAssetUnits(value: string, decimals: nat): (r: Result<int, ThresholdError>)
    ensures r.Success? ==> r.value > 0 && ParseDecimalUnits(value, decimals) == Success(r.value)
    ensures ParseDecimalUnits(value, decimals).Success? && ParseDecimalUnits(value, decimals).value > 0 ==> r.Success?
  {
    match ParseDecimalUnits(value, decimals)
    case Failure(e) => Failure(UnitsMalformed(e))
    case Success(n) => if n <= 0 then Failure(UnitsNotPositive) else Success(n)
  }

  function ErrorOf<T>(r: Result<T, ThresholdError>): Option<ThresholdError> {
    if r.Failure? then Some(r.error) else None
  }

  function ValidateThresholdValue(key: string, value: string, decimals: nat): Option<ThresholdError> {
    if key == KEY_LOSS_WARN || key == KEY_LOSS_URGENT then ErrorOf(ParseThresholdBPS(value))
    else if key == KEY_IDLE_WARN || key == KEY_IDLE_URGENT then ErrorOf(ParseThresholdAssetUnits(value, decimals))
    else if key == KEY_SEVERITY && value != SEVERITY_WARN && value != SEVERITY_URGENT then Some(SeverityUnknown)
    else None
  }

  // ----- lists of overrides and the table they stand for -----

  type Table = map<(string, string), string>

  /** What the list says; where it names a key twice, its first entry counts. */
  function TableOf(overrides: seq<ThresholdOverride>): Table {
    if overrides == [] then map[]
    else TableOf(overrides[1..])[(overrides[0].moduleID, overrides[0].key) := overrides[0].value]
  }

  predicate Unique(overrides: seq<ThresholdOverride>) {
    overrides == [] || ((overrides[0].moduleID, overrides[0].key) !in TableOf(overrides[1..]) && Unique(overrides[1..]))
  }

  predicate Matches(o: ThresholdOverride, moduleID: string, key: string) {
    o.moduleID == moduleID && o.key == key
  }

  function Upserted(overrides: seq<ThresholdOverride>, moduleID: string, key: string, value: string)
    : seq<ThresholdOverride>
  {
    if overrides == [] then [ThresholdOverride(moduleID, key, value)]
    else if Matches(overrides[0], moduleID, key) then [overrides[0].(value := value)] + overrides[1..]
    else [overrides[0]] + Upserted(overrides[1..], moduleID, key, value)
  }

  /** An upsert into the list is an update of the table. */
  lemma {:induction false} UpsertedIsMapUpdate(overrides: seq<ThresholdOverride>, moduleID: string, key: string,
                                               value: string)
    ensures TableOf(Upserted(overrides, moduleID, key, value)) == TableOf(overrides)[(moduleID, key) := value]
  {
    if overrides != [] && !Matches(overrides[0], moduleID, key) {
      UpsertedIsMapUpdate(overrides[1..], moduleID, key, value);
    }
  }

  lemma {:induction false} UpsertedKeepsUnique(overrides: seq<ThresholdOverride>, moduleID: string, key: string,
                                               value: string)
    requires Unique(overrides)
    ensures Unique(Upserted(overrides, moduleID, key, value))
  {
    if overrides != [] && !Matches(overrides[0], moduleID, key) {
      UpsertedKeepsUnique(overrides[1..], moduleID, key, value);
      UpsertedIsMapUpdate(overrides[1..], moduleID, key, value);
    }
  }

  lemma {:induction false} UpsertedAfterPrefix(before: seq<ThresholdOverride>, rest: seq<ThresholdOverride>,
                                               moduleID: string, key: string, value: string)
    requires forall i :: 0 <= i < |before| ==> !Matches(before[i], moduleID, key)
    ensures Upserted(before + rest, moduleID, key, value) == before + Upserted(rest, moduleID, key, value)
  {
    if before == [] {
      assert before + rest == rest;
    } else {
      assert (before + rest)[1..] == before[1..] + rest;
      UpsertedAfterPrefix(before[1..], rest, moduleID, key, value);
    }
  }

  /** Replaces the value in place, or appends. */
  method UpsertOverride(overrides: seq<ThresholdOverride>, moduleID: string, key: string, value: string)
    returns (result: seq<ThresholdOverride>)
    ensures result == Upserted(overrides, moduleID, key, value)
    ensures TableOf(result) == TableOf(overrides)[(moduleID, key) := value]
    ensures Unique(overrides) ==> Unique(result)
  {
    UpsertedIsMapUpdate(overrides, moduleID, key, value);
    if Unique(overrides) {
      UpsertedKeepsUnique(overrides, moduleID, key, value);
    }
    result := overrides;
    for index := 0 to |result|
      invariant result == overrides
      invariant forall i :: 0 <= i < index ==> !Matches(overrides[i], moduleID, key)
    {
      if Matches(result[index], moduleID, key) {
        UpsertedAfterPrefix(overrides[..index], overrides[index..], moduleID, key, value);
        assert overrides == overrides[..index] + overrides[index..];
        result := result[index := result[index].(value := value)];
        return;
      }
    }
    UpsertedAfterPrefix(overrides, [], moduleID, key, value);
    assert overrides + [] == overrides;
    result := result + [ThresholdOverride(moduleID, key, value)];
  }

  // ----- applying a list to a module -----

  function OverridesFor(overrides: seq<ThresholdOverride>, moduleID: string): seq<ThresholdOverride> {
    if overrides == [] then []
    else if overrides[0].moduleID == moduleID then [overrides[0]] + OverridesFor(overrides[1..], moduleID)
    else OverridesFor(overrides[1..], moduleID)
  }

  method OverridesForModule(overrides: seq<ThresholdOverride>, moduleID: string)
    returns (result: seq<ThresholdOverride>)
    ensures result == OverridesFor(overrides, moduleID)
    ensures forall o :: o in result <==> o in overrides && o.moduleID == moduleID
  {
    result := [];
    for i := 0 to |overrides|
      invariant OverridesFor(overrides, moduleID) == result + OverridesFor(overrides[i..], moduleID)
      invariant forall o :: o in result <==> o in overrides[..i] && o.moduleID == moduleID
    {
      assert overrides[i..][1..] == overrides[i + 1..];
      if overrides[i].moduleID == moduleID {
        result := result + [overrides[i]];
      }
    }
  }

  /** One override of the module, or nothing if it belongs to another. */
  function SharePriceStep(m: SharePrice.SharePriceModule, o: ThresholdOverride)
    : Result<SharePrice.SharePriceModule, ThresholdError>
  {
    match ValidateThresholdValue(o.key, o.value, 0)
    case Some(e) => Failure(e)
    case None =>
      if o.key == KEY_LOSS_WARN then
        var value := ParseThresholdBPS(o.value);
        if value.Failure? then Failure(value.error) else Success(m.(warnBPS := value.value))
      else if o.key == KEY_LOSS_URGENT then
        var value := ParseThresholdBPS(o.value);
        if value.Failure? then Failure(value.error) else Success(m.(urgentBPS := value.value))
      else Success(m)
  }

  function LiquidityStep(m: Liquidity.LiquidityModule, o: ThresholdOverride, decimals: nat)
    : Result<Liquidity.LiquidityModule, ThresholdError>
  {
    match ValidateThresholdValue(o.key, o.value, decimals)
    case Some(e) => Failure(e)
    case None =>
      if o.key == KEY_IDLE_WARN then
        var value := ParseThresholdAssetUnits(o.value, decimals);
        if value.Failure? then Failure(value.error) else Success(m.(idleWarn := Some(value.value)))
      else if o.key == KEY_IDLE_URGENT then
        var value := ParseThresholdAssetUnits(o.value, decimals);
        if value.Failure? then Failure(value.error) else Success(m.(idleUrgent := Some(value.value)))
      else Success(m)
  }

  function VaultStateStep(m: VaultState.VaultStateModule, o: ThresholdOverride)
    : Result<VaultState.VaultStateModule, ThresholdError>
  {
    match ValidateThresholdValue(o.key, o.value, 0)
    case Some(e) => Failure(e)
    case None => Success(if o.key == KEY_SEVERITY then m.(changeSeverity := SeverityOf(o.value)) else m)
  }

  /** Applies the overrides of one module from left to right, stopping at the first error. */
  function Fold<M>(step: (M, ThresholdOverride) -> Result<M, ThresholdError>, m: M, overrides: seq<ThresholdOverride>)
    : Result<M, ThresholdError>
  {
    if overrides == [] then Success(m)
    else
      var next := step(m, overrides[0]);
      if next.Failure? then next else Fold(step, next.value, overrides[1..])
  }

  method ApplySharePriceOverrides(m: SharePrice.SharePriceModule, overrides: seq<ThresholdOverride>)
    returns (r: Result<SharePrice.SharePriceModule, ThresholdError>)
    ensures r == SharePriceWith(m, overrides)
  {
    var effective := m;
    var own := OverridesForModule(overrides, MODULE_SHARE_PRICE_LOSS);
    for i := 0 to |own|
      invariant Fold(SharePriceStep, m, own) == Fold(SharePriceStep, effective, own[i..])
    {
      assert own[i..][1..] == own[i + 1..];
      var next := SharePriceStep(effective, own[i]);
      if next.Failure? {
        return next;
      }
      effective := next.value;
    }
    return Success(effective);
  }

  method ApplyLiquidityOverrides(m: Liquidity.LiquidityModule, overrides: seq<ThresholdOverride>, decimals: nat)
    returns (r: Result<Liquidity.LiquidityModule, ThresholdError>)
    ensures r == LiquidityWith(m, overrides, decimals)
  {
    var effective := m;
    var own := OverridesForModule(overrides, MODULE_WITHDRAW_LIQUIDITY);
    ghost var step := LiquidityStepWith(decimals);
    for i := 0 to |own|
      invariant Fold(step, m, own) == Fold(step, effective, own[i..])
    {
      assert own[i..][1..] == own[i + 1..];
      var next := LiquidityStep(effective, own[i], decimals);
      if next.Failure? {
        return next;
      }
      effective := next.value;
    }
    return Success(effective);
  }

  method ApplyVaultStateOverrides(m: VaultState.VaultStateModule, overrides: seq<ThresholdOverride>)
    returns (r: Result<VaultState.VaultStateModule, ThresholdError>)
    ensures r == VaultStateWith(m, overrides)
  {
    var effective := m;
    var own := OverridesForModule(overrides, MODULE_VAULT_STATE);
    for i := 0 to |own|
      invariant Fold(VaultStateStep, m, own) == Fold(VaultStateStep, effective, own[i..])
    {
      assert own[i..][1..] == own[i + 1..];
      var next := VaultStateStep(effective, own[i]);
      if next.Failure? {
        return next;
      }
      effective := next.value;
    }
    return Success(effective);
  }

  function LiquidityStepWith(decimals: nat)
    : (Liquidity.LiquidityModule, ThresholdOverride) -> Result<Liquidity.LiquidityModule, ThresholdError>
  {
    (m, o) => LiquidityStep(m, o, decimals)
  }

  function SharePriceWith(m: SharePrice.SharePriceModule, overrides: seq<ThresholdOverride>)
    : Result<SharePrice.SharePriceModule, ThresholdError>
  {
    Fold(SharePriceStep, m, OverridesFor(overrides, MODULE_SHARE_PRICE_LOSS))
  }

  function LiquidityWith(m: Liquidity.LiquidityModule, overrides: seq<ThresholdOverride>, decimals: nat)
    : Result<Liquidity.LiquidityModule, ThresholdError>
  {
    Fold(LiquidityStepWith(decimals), m, OverridesFor(overrides, MODULE_WITHDRAW_LIQUIDITY))
  }

  function VaultStateWith(m: VaultState.VaultStateModule, overrides: seq<ThresholdOverride>)
    : Result<VaultState.VaultStateModule, ThresholdError>
  {
    Fold(VaultStateStep, m, OverridesFor(overrides, MODULE_VAULT_STATE))
  }

  // ----- the same, read off the table -----

  /** Every entry of one module parses. */
  predicate TableValid(t: Table, moduleID: string, decimals: nat) {
    forall k :: k in t && k.0 == moduleID ==> ValidateThresholdValue(k.1, t[k], decimals).None?
  }

  function BPSOr(t: Table, moduleID: string, key: string, fallback: int64): int64 {
    if (moduleID, key) in t && ParseThresholdBPS(t[(moduleID, key)]).Success?
    then ParseThresholdBPS(t[(moduleID, key)]).value
    else fallback
  }

  function UnitsOr(t: Table, moduleID: string, key: string, fallback: Option<int>, decimals: nat): Option<int> {
    if (moduleID, key) in t && ParseThresholdAssetUnits(t[(moduleID, key)], decimals).Success?
    then Some(ParseThresholdAssetUnits(t[(moduleID, key)], decimals).value)
    else fallback
  }

  function SharePriceFrom(m: SharePrice.SharePriceModule, t: Table): SharePrice.SharePriceModule {
    m.(warnBPS := BPSOr(t, MODULE_SHARE_PRICE_LOSS, KEY_LOSS_WARN, m.warnBPS),
       urgentBPS := BPSOr(t, MODULE_SHARE_PRICE_LOSS, KEY_LOSS_URGENT, m.urgentBPS))
  }

  function LiquidityFrom(m: Liquidity.LiquidityModule, t: Table, decimals: nat): Liquidity.LiquidityModule {
    m.(idleWarn := UnitsOr(t, MODULE_WITHDRAW_LIQUIDITY, KEY_IDLE_WARN, m.idleWarn, decimals),
       idleUrgent := UnitsOr(t, MODULE_WITHDRAW_LIQUIDITY, KEY_IDLE_URGENT, m.idleUrgent, decimals))
  }

  function VaultStateFrom(m: VaultState.VaultStateModule, t: Table): VaultState.VaultStateModule {
    if (MODULE_VAULT_STATE, KEY_SEVERITY) in t
    then m.(changeSeverity := SeverityOf(t[(MODULE_VAULT_STATE, KEY_SEVERITY)]))
    else m
  }

  lemma KeysDiffer()
    ensures KEY_LOSS_WARN != KEY_LOSS_URGENT && KEY_IDLE_WARN != KEY_IDLE_URGENT
    ensures KEY_LOSS_WARN != KEY_IDLE_WARN && KEY_LOSS_WARN != KEY_IDLE_URGENT && KEY_LOSS_WARN != KEY_SEVERITY
    ensures KEY_LOSS_URGENT != KEY_IDLE_WARN && KEY_LOSS_URGENT != KEY_IDLE_URGENT && KEY_LOSS_URGENT != KEY_SEVERITY
    ensures KEY_IDLE_WARN != KEY_SEVERITY && KEY_IDLE_URGENT != KEY_SEVERITY
    ensures MODULE_SHARE_PRICE_LOSS != MODULE_WITHDRAW_LIQUIDITY && MODULE_SHARE_PRICE_LOSS != MODULE_VAULT_STATE
    ensures MODULE_WITHDRAW_LIQUIDITY != MODULE_VAULT_STATE
  {
    assert |KEY_LOSS_WARN| == 13 && |KEY_LOSS_URGENT| == 15 && |KEY_IDLE_WARN| == 24 && |KEY_IDLE_URGENT| == 26
        && |KEY_SEVERITY| == 15;
    assert KEY_LOSS_URGENT[0] == 'l' && KEY_SEVERITY[0] == 'c';
    assert |MODULE_SHARE_PRICE_LOSS| == 16 && |MODULE_WITHDRAW_LIQUIDITY| == 18 && |MODULE_VAULT_STATE| == 20;
  }

  /** Taking the head off a list with unique keys takes one entry out of the table. */
  lemma TableValidHead(overrides: seq<ThresholdOverride>, moduleID: string, decimals: nat)
    requires Unique(overrides) && overrides != []
    ensures TableValid(TableOf(overrides), moduleID, decimals) <==>
              && TableValid(TableOf(overrides[1..]), moduleID, decimals)
              && (overrides[0].moduleID == moduleID ==>
                   ValidateThresholdValue(overrides[0].key, overrides[0].value, decimals).None?)
  {
    var t, rest, o := TableOf(overrides), TableOf(overrides[1..]), overrides[0];
    assert t == rest[(o.moduleID, o.key) := o.value];
    if TableValid(t, moduleID, decimals) {
      forall k | k in rest && k.0 == moduleID ensures ValidateThresholdValue(k.1, rest[k], decimals).None? {
        assert k in t && t[k] == rest[k];
      }
      assert (o.moduleID, o.key) in t;
    }
  }

  lemma SharePriceStepFrom(m: SharePrice.SharePriceModule, o: ThresholdOverride, t: Table)
    requires (o.moduleID, o.key) !in t
    ensures o.moduleID != MODULE_SHARE_PRICE_LOSS ==>
              SharePriceFrom(m, t[(o.moduleID, o.key) := o.value]) == SharePriceFrom(m, t)
    ensures o.moduleID == MODULE_SHARE_PRICE_LOSS && SharePriceStep(m, o).Success? ==>
              SharePriceFrom(m, t[(o.moduleID, o.key) := o.value]) == SharePriceFrom(SharePriceStep(m, o).value, t)
  {
    KeysDiffer();
  }

  /** On a list with unique keys, applying it succeeds exactly when its table is valid, and the
      module it gives depends on the table alone: the order of the list does not matter. */
  lemma {:induction false} SharePriceWithReadsTable(m: SharePrice.SharePriceModule, overrides: seq<ThresholdOverride>)
    requires Unique(overrides)
    ensures SharePriceWith(m, overrides).Success? <==> TableValid(TableOf(overrides), MODULE_SHARE_PRICE_LOSS, 0)
    ensures SharePriceWith(m, overrides).Success? ==>
              SharePriceWith(m, overrides).value == SharePriceFrom(m, TableOf(overrides))
    decreases |overrides|
  {
    if overrides != [] {
      var o, rest := overrides[0], overrides[1..];
      TableValidHead(overrides, MODULE_SHARE_PRICE_LOSS, 0);
      SharePriceStepFrom(m, o, TableOf(rest));
      if o.moduleID != MODULE_SHARE_PRICE_LOSS {
        SharePriceWithReadsTable(m, rest);
      } else if SharePriceStep(m, o).Success? {
        assert OverridesFor(overrides, MODULE_SHARE_PRICE_LOSS)[1..] == OverridesFor(rest, MODULE_SHARE_PRICE_LOSS);
        SharePriceWithReadsTable(SharePriceStep(m, o).value, rest);
      }
    }
  }

  lemma LiquidityStepFrom(m: Liquidity.LiquidityModule, o: ThresholdOverride, t: Table, decimals: nat)
    requires (o.moduleID, o.key) !in t
    ensures o.moduleID != MODULE_WITHDRAW_LIQUIDITY ==>
              LiquidityFrom(m, t[(o.moduleID, o.key) := o.value], decimals) == LiquidityFrom(m, t, decimals)
    ensures o.moduleID == MODULE_WITHDRAW_LIQUIDITY && LiquidityStep(m, o, decimals).Success? ==>
              LiquidityFrom(m, t[(o.moduleID, o.key) := o.value], decimals)
                == LiquidityFrom(LiquidityStep(m, o, decimals).value, t, decimals)
  {
    KeysDiffer();
  }

  lemma {:induction false} LiquidityWithReadsTable(m: Liquidity.LiquidityModule, overrides: seq<ThresholdOverride>,
                                                   decimals: nat)
    requires Unique(overrides)
    ensures LiquidityWith(m, overrides, decimals).Success?
            <==> TableValid(TableOf(overrides), MODULE_WITHDRAW_LIQUIDITY, decimals)
    ensures LiquidityWith(m, overrides, decimals).Success? ==>
              LiquidityWith(m, overrides, decimals).value == LiquidityFrom(m, TableOf(overrides), decimals)
    decreases |overrides|
  {
    if overrides != [] {
      var o, rest := overrides[0], overrides[1..];
      TableValidHead(overrides, MODULE_WITHDRAW_LIQUIDITY, decimals);
      LiquidityStepFrom(m, o, TableOf(rest), decimals);
      if o.moduleID != MODULE_WITHDRAW_LIQUIDITY {
        LiquidityWithReadsTable(m, rest, decimals);
      } else if LiquidityStep(m, o, decimals).Success? {
        assert OverridesFor(overrides, MODULE_WITHDRAW_LIQUIDITY)[1..] == OverridesFor(rest, MODULE_WITHDRAW_LIQUIDITY);
        LiquidityWithReadsTable(LiquidityStep(m, o, decimals).value, rest, decimals);
      }
    }
  }

  lemma VaultStateStepFrom(m: VaultState.VaultStateModule, o: ThresholdOverride, t: Table)
    requires (o.moduleID, o.key) !in t
    ensures o.moduleID != MODULE_VAULT_STATE ==>
              VaultStateFrom(m, t[(o.moduleID, o.key) := o.value]) == VaultStateFrom(m, t)
    ensures o.moduleID == MODULE_VAULT_STATE && VaultStateStep(m, o).Success? ==>
              VaultStateFrom(m, t[(o.moduleID, o.key) := o.value]) == VaultStateFrom(VaultStateStep(m, o).value, t)
  {
    KeysDiffer();
  }

  lemma {:induction false} VaultStateWithReadsTable(m: VaultState.VaultStateModule, overrides: seq<ThresholdOverride>)
    requires Unique(overrides)
    ensures VaultStateWith(m, overrides).Success? <==> TableValid(TableOf(overrides), MODULE_VAULT_STATE, 0)
    ensures VaultStateWith(m, overrides).Success? ==>
              VaultStateWith(m, overrides).value == VaultStateFrom(m, TableOf(overrides))
    decreases |overrides|
  {
    if overrides != [] {
      var o, rest := overrides[0], overrides[1..];
      TableValidHead(overrides, MODULE_VAULT_STATE, 0);
      VaultStateStepFrom(m, o, TableOf(rest));
      if o.moduleID != MODULE_VAULT_STATE {
        VaultStateWithReadsTable(m, rest);
      } else if VaultStateStep(m, o).Success? {
        assert OverridesFor(overrides, MODULE_VAULT_STATE)[1..] == OverridesFor(rest, MODULE_VAULT_STATE);
        VaultStateWithReadsTable(VaultStateStep(m, o).value, rest);
      }
    }
  }

  // ----- the effective module -----

  datatype Module =
    | OfSharePrice(sharePrice: SharePrice.SharePriceModule)
    | OfLiquidity(liquidity: Liquidity.LiquidityModule)
    | OfVaultState(vaultState: VaultState.VaultStateModule)
    | Foreign

  predicate PassesValidation(m: Module) {
    match m
    case OfSharePrice(s) => SharePrice.ValidateConfig(s).None?
    case OfLiquidity(l) => Liquidity.ValidateConfig(l).None?
    case OfVaultState(v) => VaultState.ValidateConfig(v).None?
    case Foreign => true
  }

  function Effective(m: Module, t: Table, decimals: nat): Module {
    match m
    case OfSharePrice(s) => OfSharePrice(SharePriceFrom(s, t))
    case OfLiquidity(l) => OfLiquidity(LiquidityFrom(l, t, decimals))
    case OfVaultState(v) => OfVaultState(VaultStateFrom(v, t))
    case Foreign => Foreign
  }

  predicate EffectiveExists(m: Module, t: Table, decimals: nat) {
    match m
    case OfSharePrice(_) => TableValid(t, MODULE_SHARE_PRICE_LOSS, 0)
    case OfLiquidity(_) => TableValid(t, MODULE_WITHDRAW_LIQUIDITY, decimals)
    case OfVaultState(_) => TableValid(t, MODULE_VAULT_STATE, 0)
    case Foreign => true
  }

  method ApplyOverrides(m: Module, overrides: seq<ThresholdOverride>, decimals: nat)
    returns (r: Result<Module, ThresholdError>)
    ensures Unique(overrides) ==> (r.Success? <==> EffectiveExists(m, TableOf(overrides), decimals))
    ensures Unique(overrides) && r.Success? ==> r.value == Effective(m, TableOf(overrides), decimals)
  {
    match m
    case OfSharePrice(s) =>
      var applied := ApplySharePriceOverrides(s, overrides);
      if Unique(overrides) { SharePriceWithReadsTable(s, overrides); }
      return if applied.Failure? then Failure(applied.error) else Success(OfSharePrice(applied.value));
    case OfLiquidity(l) =>
      var applied := ApplyLiquidityOverrides(l, overrides, decimals);
      if Unique(overrides) { LiquidityWithReadsTable(l, overrides, decimals); }
      return if applied.Failure? then Failure(applied.error) else Success(OfLiquidity(applied.value));
    case OfVaultState(v) =>
      var applied := ApplyVaultStateOverrides(v, overrides);
      if Unique(overrides) { VaultStateWithReadsTable(v, overrides); }
      return if applied.Failure? then Failure(applied.error) else Success(OfVaultState(applied.value));
    case Foreign =>
      return Success(Foreign);
  }

  /** The number that an entry of the table gives, or the number that was there. */
  predicate IsOverridden(after: int, before: int, t: Table, moduleID: string, key: string) {
    if (moduleID, key) in t then ParseInt64(t[(moduleID, key)]) == Some(after) else after == before
  }

  predicate AreOverridden(after: Option<int>, before: Option<int>, t: Table, moduleID: string, key: string,
                          decimals: nat)
  {
    if (moduleID, key) in t
    then after.Some? && ParseDecimalUnits(t[(moduleID, key)], decimals) == Success(after.value)
    else after == before
  }

  /** The effective module: each of the five thresholds is what the table says for it, or what it
      was, and nothing else of the module has changed. */
  lemma EffectiveThresholdsAre(m: Module, t: Table, decimals: nat)
    requires EffectiveExists(m, t, decimals)
    ensures m.OfSharePrice? ==>
              var before, after := m.sharePrice, Effective(m, t, decimals).sharePrice;
              && IsOverridden(after.warnBPS, before.warnBPS, t, "share_price_loss", "loss_warn_bps")
              && IsOverridden(after.urgentBPS, before.urgentBPS, t, "share_price_loss", "loss_urgent_bps")
              && after.baseline == before.baseline && after.previous == before.previous
                   && after.hasReader == before.hasReader
    ensures m.OfLiquidity? ==>
              var before, after := m.liquidity, Effective(m, t, decimals).liquidity;
              && AreOverridden(after.idleWarn, before.idleWarn, t, "withdraw_liquidity", "idle_warn_threshold_usdc",
                               decimals)
              && AreOverridden(after.idleUrgent, before.idleUrgent, t, "withdraw_liquidity",
                               "idle_urgent_threshold_usdc", decimals)
              && after == before.(idleWarn := after.idleWarn, idleUrgent := after.idleUrgent)
    ensures m.OfVaultState? ==>
              var before, after := m.vaultState, Effective(m, t, decimals).vaultState;
              var k := ("vault_state_baseline", "change_severity");
              && (k in t ==> (t[k] == "warn" && after.changeSeverity == Warn)
                             || (t[k] == "urgent" && after.changeSeverity == Urgent))
              && (k !in t ==> after.changeSeverity == before.changeSeverity)
              && after.hasReader == before.hasReader && after.baseline == before.baseline
  {
    KeysDiffer();
  }

  // ----- accepting a change -----

  function ModuleInt64(config: ModuleConfig, key: string): Result<int64, ThresholdError> {
    if key in config && config[key].IntegerValue? then Success(config[key].n) else Failure(ConfigFieldInvalid(key))
  }

  function ModuleString(config: ModuleConfig, key: string): Result<string, ThresholdError> {
    if key in config && config[key].TextValue? && config[key].text != "" then Success(config[key].text)
    else Failure(ConfigFieldInvalid(key))
  }

  function ModuleDecimalUnits(config: ModuleConfig, key: string, decimals: nat): Result<int, ThresholdError> {
    var text := ModuleString(config, key);
    if text.Failure? then Failure(text.error)
    else
      match ParseDecimalUnits(text.value, decimals)
      case Failure(e) => Failure(UnitsMalformed(e))
      case Success(n) => Success(n)
  }

  const VALIDATION_OWNER := 1
  const VALIDATION_RECEIVER := 2
  const VALIDATION_VAULT := 3

  const NO_SNAPSHOT :=
    VaultState.Snapshot("", "", "", "", "", "", "", "", "", "", "", "", "", "", None, None, None, None, None, None)

  function SharePriceThresholdConfig(config: ModuleConfig): Result<SharePrice.SharePriceModule, ThresholdError> {
    var warn, urgent := ModuleInt64(config, KEY_LOSS_WARN), ModuleInt64(config, KEY_LOSS_URGENT);
    if warn.Failure? then Failure(warn.error)
    else if urgent.Failure? then Failure(urgent.error)
    else Success(SharePrice.SharePriceModule(Some(1), None, warn.value, urgent.value, true))
  }

  function LiquidityThresholdConfig(config: ModuleConfig, decimals: nat)
    : Result<Liquidity.LiquidityModule, ThresholdError>
  {
    var warn := ModuleDecimalUnits(config, KEY_IDLE_WARN, decimals);
    var urgent := ModuleDecimalUnits(config, KEY_IDLE_URGENT, decimals);
    if warn.Failure? then Failure(warn.error)
    else if urgent.Failure? then Failure(urgent.error)
    else Success(Liquidity.LiquidityModule(true, true, VALIDATION_OWNER, VALIDATION_RECEIVER, VALIDATION_VAULT,
                                           Some(warn.value), Some(urgent.value)))
  }

  function VaultStateThresholdConfig(config: ModuleConfig): Result<VaultState.VaultStateModule, ThresholdError> {
    var severity := ModuleString(config, KEY_SEVERITY);
    if severity.Failure? then Failure(severity.error)
    else Success(VaultState.VaultStateModule(true, NO_SNAPSHOT, SeverityOf(severity.value)))
  }

  /** The stand-in module whose thresholds come from the configuration alone. */
  function Surrogate(moduleID: string, config: ModuleConfig, decimals: nat): Result<Module, ThresholdError> {
    if moduleID == MODULE_SHARE_PRICE_LOSS then
      var m := SharePriceThresholdConfig(config);
      if m.Failure? then Failure(m.error) else Success(OfSharePrice(m.value))
    else if moduleID == MODULE_WITHDRAW_LIQUIDITY then
      var m := LiquidityThresholdConfig(config, decimals);
      if m.Failure? then Failure(m.error) else Success(OfLiquidity(m.value))
    else if moduleID == MODULE_VAULT_STATE then
      var m := VaultStateThresholdConfig(config);
      if m.Failure? then Failure(m.error) else Success(OfVaultState(m.value))
    else Success(Foreign)
  }

  /** The configured thresholds of a module, overridden by a table, are consistent. */
  predicate Consistent(moduleID: string, config: ModuleConfig, t: Table, decimals: nat) {
    var m := Surrogate(moduleID, config, decimals);
    m.Success? && EffectiveExists(m.value, t, decimals) && PassesValidation(Effective(m.value, t, decimals))
  }

  /** A change is acceptable if its value parses and, when the module is configured, the
      thresholds are consistent once it is in the table. */
  predicate Acceptable(moduleID: string, key: string, value: string, config: Option<ModuleConfig>, t: Table,
                       decimals: nat)
  {
    && ValidateThresholdValue(key, value, decimals).None?
    && (config.Some? ==> Consistent(moduleID, config.value, t[(moduleID, key) := value], decimals))
  }

  method ValidateThresholdChange(moduleID: string, key: string, value: string, config: Option<ModuleConfig>,
                                 overrides: seq<ThresholdOverride>, decimals: nat)
    returns (error: Option<ThresholdError>)
    ensures Unique(overrides) ==>
              (error.None? <==> Acceptable(moduleID, key, value, config, TableOf(overrides), decimals))
  {
    var malformed := ValidateThresholdValue(key, value, decimals);
    if malformed.Some? {
      return malformed;
    }
    if config.None? {
      return None;
    }
    var proposed := UpsertOverride(overrides, moduleID, key, value);
    var surrogate := Surrogate(moduleID, config.value, decimals);
    if surrogate.Failure? {
      return Some(surrogate.error);
    }
    var effective := ApplyOverrides(surrogate.value, proposed, decimals);
    if effective.Failure? {
      return Some(effective.error);
    }
    return if PassesValidation(effective.value) then None else Some(Inconsistent);
  }

  /** Two modules that differ only in what overrides do not touch, both of them well formed. */
  ghost predicate SameThresholds(actual: Module, surrogate: Module) {
    match (actual, surrogate)
    case (OfSharePrice(r), OfSharePrice(s)) =>
      && r.warnBPS == s.warnBPS && r.urgentBPS == s.urgentBPS
      && r.baseline.Some? && r.baseline.value > 0 && r.hasReader
      && s.baseline.Some? && s.baseline.value > 0 && s.hasReader
    case (OfLiquidity(r), OfLiquidity(s)) =>
      && r.idleWarn == s.idleWarn && r.idleUrgent == s.idleUrgent
      && r.hasReader && r.hasSimulator && r.owner != 0 && r.receiver != 0 && r.vault != 0
      && s.hasReader && s.hasSimulator && s.owner != 0 && s.receiver != 0 && s.vault != 0
    case (OfVaultState(r), OfVaultState(s)) => r.changeSeverity == s.changeSeverity && r.hasReader && s.hasReader
    case (Foreign, Foreign) => true
    case _ => false
  }

  lemma SameThresholdsSameVerdict(actual: Module, surrogate: Module, t: Table, decimals: nat)
    requires SameThresholds(actual, surrogate)
    ensures EffectiveExists(actual, t, decimals) == EffectiveExists(surrogate, t, decimals)
    ensures PassesValidation(Effective(actual, t, decimals)) == PassesValidation(Effective(surrogate, t, decimals))
  {
    match actual
    case OfSharePrice(_) =>
    case OfLiquidity(_) =>
    case OfVaultState(_) =>
    case Foreign =>
  }

  /** The verdict on the stand-in is the verdict on the real module. */
  lemma SurrogateDecides(actual: Module, moduleID: string, config: ModuleConfig, t: Table, decimals: nat)
    requires Surrogate(moduleID, config, decimals).Success?
    requires SameThresholds(actual, Surrogate(moduleID, config, decimals).value)
    ensures Consistent(moduleID, config, t, decimals) <==>
            EffectiveExists(actual, t, decimals) && PassesValidation(Effective(actual, t, decimals))
  {
    SameThresholdsSameVerdict(actual, Surrogate(moduleID, config, decimals).value, t, decimals);
  }

  /** The thresholds of the stand-in are those that the configuration names. */
  lemma SurrogateReadsTheConfig(config: ModuleConfig, decimals: nat)
    ensures var m := Surrogate("share_price_loss", config, decimals);
            m.Success? ==>
              && "loss_warn_bps" in config && "loss_urgent_bps" in config && m.value.OfSharePrice?
              && config["loss_warn_bps"] == IntegerValue(m.value.sharePrice.warnBPS)
              && config["loss_urgent_bps"] == IntegerValue(m.value.sharePrice.urgentBPS)
    ensures var m := Surrogate("withdraw_liquidity", config, decimals);
            m.Success? ==>
              && "idle_warn_threshold_usdc" in config && "idle_urgent_threshold_usdc" in config && m.value.OfLiquidity?
              && var warn, urgent := config["idle_warn_threshold_usdc"], config["idle_urgent_threshold_usdc"];
                 && warn.TextValue? && urgent.TextValue? && m.value.liquidity.idleWarn.Some?
                      && m.value.liquidity.idleUrgent.Some?
                 && ParseDecimalUnits(warn.text, decimals) == Success(m.value.liquidity.idleWarn.value)
                 && ParseDecimalUnits(urgent.text, decimals) == Success(m.value.liquidity.idleUrgent.value)
    ensures var m := Surrogate("vault_state_baseline", config, decimals);
            m.Success? ==>
              && "change_severity" in config && m.value.OfVaultState?
              && var severity := config["change_severity"];
                 && severity.TextValue? && severity.text != ""
                 && (severity.text == "warn" <==> m.value.vaultState.changeSeverity == Warn)
                 && (severity.text == "urgent" <==> m.value.vaultState.changeSeverity == Urgent)
  {
    KeysDiffer();
  }
}
