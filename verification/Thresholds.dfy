/** Changing a threshold in two phases, set and then confirm (internal/app/providers.go), on
    the two tables it uses (internal/storage/repositories.go). */
module Thresholds {
  import opened Wrappers
  import opened Core
  import opened Overrides
  import Lex
  import Units

  datatype SetRequest = SetRequest(moduleID: string, key: string, value: string, userID: int)

  const THRESHOLD_KIND := "threshold"

  /** A pending confirmation; the JSON payload is kept as the request it encodes. */
  datatype PendingRow = PendingRow(kind: string, request: SetRequest, requestedBy: int, expiresAt: int, createdAt: int)

  datatype OverrideRow = OverrideRow(value: string, updatedBy: int, updatedAt: int)

  /** Both tables, by primary key. */
  datatype Store = Store(overrides: map<(string, string), OverrideRow>, pending: map<string, PendingRow>)

  datatype ProtocolError =
    | UnknownModule | UnknownKey | ListFailed | ChangeRejected | InsertFailed
    | LookupFailed | NotFound | WrongRequester | RemoveFailed | Expired | NotThreshold
    | UpsertFailed | RecordFailed

  /** Which database operations fail during one command. A lookup fails before anything has
      been deleted; a removal that fails is rolled back. */
  datatype Faults = Faults(list: bool, insert: bool, lookup: bool, remove: bool, upsert: bool, record: bool)

  datatype ProviderConfig = ProviderConfig(modules: map<string, ModuleConfig>, assetDecimals: nat, ttl: int)

  const DEFAULT_TTL: int := 600_000_000_000

  function TTL(config: ProviderConfig): (ttl: int)
    ensures ttl > 0
  {
    if config.ttl <= 0 then DEFAULT_TTL else config.ttl
  }

  function ConfigOf(config: ProviderConfig, moduleID: string): Option<ModuleConfig> {
    if moduleID in config.modules then Some(config.modules[moduleID]) else None
  }

  /** The values of the override table. */
  function ValuesOf(overrides: map<(string, string), OverrideRow>): Table {
    map k | k in overrides :: overrides[k].value
  }

  // ----- which thresholds can be set -----

  function AllowedKeys(moduleID: string): Option<set<string>> {
    if moduleID == MODULE_SHARE_PRICE_LOSS then Some({KEY_LOSS_WARN, KEY_LOSS_URGENT})
    else if moduleID == MODULE_WITHDRAW_LIQUIDITY then Some({KEY_IDLE_WARN, KEY_IDLE_URGENT})
    else if moduleID == MODULE_VAULT_STATE then Some({KEY_SEVERITY})
    else None
  }

  predicate Allowed(moduleID: string, key: string) {
    AllowedKeys(moduleID).Some? && key in AllowedKeys(moduleID).value
  }

  /** What a set command shows and stores: the id, the request, and the question to the user. */
  datatype Confirmation = Confirmation(id: string, request: SetRequest, message: string)

  /** The id depends on the module, the key and the user, not on the value. */
  function ConfirmationID(moduleID: string, key: string, userID: int): string {
    "threshold:" + moduleID + ":" + key + ":" + Units.IntText(userID)
  }

  function ConfirmationMessage(request: SetRequest): string {
    "Confirm threshold override " + request.moduleID + " " + request.key + "=" + request.value
  }

  function BuildThresholdConfirmation(request: SetRequest): (r: Result<Confirmation, ProtocolError>)
    ensures r.Success? <==> Allowed(request.moduleID, request.key)
    ensures r.Success? ==>
              r.value == Confirmation(ConfirmationID(request.moduleID, request.key, request.userID),
                                      request, ConfirmationMessage(request))
  {
    match AllowedKeys(request.moduleID)
    case None => Failure(UnknownModule)
    case Some(keys) =>
      if request.key !in keys then Failure(UnknownKey)
      else
        Success(Confirmation(ConfirmationID(request.moduleID, request.key, request.userID), request,
                             ConfirmationMessage(request)))
  }

  /** An unknown module is told from an unknown key. */
  lemma UnknownModuleExactlyWhen(request: SetRequest)
    ensures BuildThresholdConfirmation(request) == Failure(UnknownModule) <==>
              && request.moduleID != "share_price_loss" && request.moduleID != "withdraw_liquidity"
              && request.moduleID != "vault_state_baseline"
  {
  }

  /** Two allowed requests share a confirmation exactly when they are by one user for one key
      of one module. */
  lemma ConfirmationIDIdentifies(a: SetRequest, b: SetRequest)
    requires Allowed(a.moduleID, a.key) && Allowed(b.moduleID, b.key)
    ensures ConfirmationID(a.moduleID, a.key, a.userID) == ConfirmationID(b.moduleID, b.key, b.userID)
       <==> a.moduleID == b.moduleID && a.key == b.key && a.userID == b.userID
  {
    if ConfirmationID(a.moduleID, a.key, a.userID) == ConfirmationID(b.moduleID, b.key, b.userID) {
      var userA, userB := ":" + Units.IntText(a.userID), ":" + Units.IntText(b.userID);
      var keyA, keyB := ":" + (a.key + userA), ":" + (b.key + userB);
      IDFromTheRight(a);
      IDFromTheRight(b);
      ModulesDifferAtOnce(a.moduleID, b.moduleID);
      SameRest("threshold:", a.moduleID + keyA, b.moduleID + keyB);
      assert a.moduleID[0] == (a.moduleID + keyA)[0] == (b.moduleID + keyB)[0] == b.moduleID[0];
      SameRest(a.moduleID, keyA, keyB);
      KeysDifferEarly(a.moduleID, a.key, b.key);
      SameRest(":", a.key + userA, b.key + userB);
      assert a.key[5] == (a.key + userA)[5] == (b.key + userB)[5] == b.key[5];
      SameRest(a.key, userA, userB);
      SameRest(":", Units.IntText(a.userID), Units.IntText(b.userID));
      Units.IntTextIsInjective(a.userID, b.userID);
    }
  }

  lemma IDFromTheRight(a: SetRequest)
    ensures ConfirmationID(a.moduleID, a.key, a.userID)
         == "threshold:" + (a.moduleID + (":" + (a.key + (":" + Units.IntText(a.userID)))))
  {
  }

  lemma SameRest(prefix: string, a: string, b: string)
    requires prefix + a == prefix + b
    ensures a == b
  {
    assert (prefix + a)[|prefix|..] == a && (prefix + b)[|prefix|..] == b;
  }

  lemma ModulesDifferAtOnce(a: string, b: string)
    requires AllowedKeys(a).Some? && AllowedKeys(b).Some?
    ensures |a| > 0 && |b| > 0 && (a[0] == b[0] ==> a == b)
  {
  }

  lemma KeysDifferEarly(moduleID: string, a: string, b: string)
    requires Allowed(moduleID, a) && Allowed(moduleID, b)
    ensures |a| > 5 && |b| > 5 && (a[5] == b[5] ==> a == b)
  {
  }

  // ----- history -----

  /** A confirmation that became an override, which of the inserted rows it was, and how many
      rows had been inserted when it was applied. */
  datatype Applied = Applied(origin: nat, inserted: nat, moduleID: string, key: string, value: string, user: int,
                             at: int)

  /** Every row ever inserted, where the pending ones come from, and what became of the rest. */
  datatype History = History(inserted: seq<PendingRow>, origin: map<string, nat>, applied: seq<Applied>,
                             discarded: seq<nat>)

  datatype Protocol = Protocol(store: Store, history: History)

  const START := Protocol(Store(map[], map[]), History([], map[], [], []))

  // ----- the two commands, as transitions -----

  datatype Step = Step(next: Protocol, error: Option<ProtocolError>)

  predicate AcceptableNow(config: ProviderConfig, store: Store, request: SetRequest) {
    Acceptable(request.moduleID, request.key, request.value, ConfigOf(config, request.moduleID),
               ValuesOf(store.overrides), config.assetDecimals)
  }

  function SetStep(config: ProviderConfig, p: Protocol, request: SetRequest, now: int, faults: Faults): Step {
    match BuildThresholdConfirmation(request)
    case Failure(e) => Step(p, Some(e))
    case Success(confirmation) =>
      var id := confirmation.id;
      if faults.list then Step(p, Some(ListFailed))
      else if !AcceptableNow(config, p.store, request) then Step(p, Some(ChangeRejected))
      else InsertStep(p, id, PendingRow(THRESHOLD_KIND, request, request.userID, now + TTL(config), now), faults)
  }

  function InsertStep(p: Protocol, id: string, row: PendingRow, faults: Faults): Step {
    if faults.insert || id in p.store.pending then Step(p, Some(InsertFailed))
    else
      Step(Protocol(p.store.(pending := p.store.pending[id := row]),
                    p.history.(inserted := p.history.inserted + [row],
                               origin := p.history.origin[id := |p.history.inserted|])),
           None)
  }

  /** What looking a confirmation up says before anything is deleted. */
  function ConsumeError(store: Store, id: string, user: int, faults: Faults): Option<ProtocolError> {
    if faults.lookup then Some(LookupFailed)
    else if id !in store.pending then Some(NotFound)
    else if store.pending[id].requestedBy != user then Some(WrongRequester)
    else if faults.remove then Some(RemoveFailed)
    else None
  }

  /** Why a confirmation that has just been deleted is not applied. */
  function ApplyError(config: ProviderConfig, store: Store, row: PendingRow, now: int, faults: Faults)
    : Option<ProtocolError>
  {
    if now >= row.expiresAt then Some(Expired)
    else if row.kind != THRESHOLD_KIND then Some(NotThreshold)
    else
      match BuildThresholdConfirmation(row.request)
      case Failure(e) => Some(e)
      case Success(_) =>
        if faults.list then Some(ListFailed)
        else if !AcceptableNow(config, store, row.request) then Some(ChangeRejected)
        else if faults.upsert then Some(UpsertFailed)
        else None
  }

  function OriginOf(p: Protocol, id: string): nat {
    if id in p.history.origin then p.history.origin[id] else 0
  }

  function ConfirmStep(config: ProviderConfig, p: Protocol, user: int, id: string, now: int, faults: Faults): Step {
    match ConsumeError(p.store, id, user, faults)
    case Some(e) => Step(p, Some(e))
    case None =>
      var row, origin := p.store.pending[id], OriginOf(p, id);
      var consumed := p.store.(pending := p.store.pending - {id});
      match ApplyError(config, consumed, row, now, faults)
      case Some(e) =>
        Step(Protocol(consumed,
                      p.history.(origin := p.history.origin - {id}, discarded := p.history.discarded + [origin])),
             Some(e))
      case None =>
        var r := row.request;
        var row' := OverrideRow(r.value, row.requestedBy, now);
        var applied := Applied(origin, |p.history.inserted|, r.moduleID, r.key, r.value, row.requestedBy, now);
        Step(Protocol(consumed.(overrides := consumed.overrides[(r.moduleID, r.key) := row']),
                      p.history.(origin := p.history.origin - {id}, applied := p.history.applied + [applied])),
             if faults.record then Some(RecordFailed) else None)
  }

  // ----- the tables -----

  /** A row of the override table as it is read. */
  datatype StoredOverride = StoredOverride(moduleID: string, key: string, value: string, updatedBy: int, updatedAt: int)

  function KeyOf(row: StoredOverride): (string, string) {
    (row.moduleID, row.key)
  }

  function RowOf(row: StoredOverride): OverrideRow {
    OverrideRow(row.value, row.updatedBy, row.updatedAt)
  }

  /** The table that a list of rows was read from. */
  function TableRead(rows: seq<StoredOverride>): map<(string, string), OverrideRow> {
    if rows == [] then map[] else TableRead(rows[1..])[KeyOf(rows[0]) := RowOf(rows[0])]
  }

  predicate KeyBefore(a: StoredOverride, b: StoredOverride) {
    Lex.Less(a.moduleID, b.moduleID) || (a.moduleID == b.moduleID && Lex.Less(a.key, b.key))
  }

  /** Strictly sorted, so no key occurs twice. */
  predicate SortedByKey(rows: seq<StoredOverride>) {
    forall i, j :: 0 <= i < j < |rows| ==> KeyBefore(rows[i], rows[j])
  }

  function InsertRow(rows: seq<StoredOverride>, row: StoredOverride): seq<StoredOverride> {
    if rows == [] || KeyBefore(row, rows[0]) then [row] + rows else [rows[0]] + InsertRow(rows[1..], row)
  }

  lemma {:induction false} InsertRowIsUpdate(rows: seq<StoredOverride>, row: StoredOverride)
    requires KeyOf(row) !in TableRead(rows)
    ensures TableRead(InsertRow(rows, row)) == TableRead(rows)[KeyOf(row) := RowOf(row)]
    ensures forall r :: r in InsertRow(rows, row) <==> r == row || r in rows
  {
    if rows != [] && !KeyBefore(row, rows[0]) {
      InsertRowIsUpdate(rows[1..], row);
    }
  }

  lemma KeyOrder(a: StoredOverride, b: StoredOverride, c: StoredOverride)
    ensures KeyBefore(a, b) || KeyOf(a) == KeyOf(b) || KeyBefore(b, a)
    ensures KeyBefore(a, b) && KeyBefore(b, c) ==> KeyBefore(a, c)
  {
    Lex.LessIsTotal(a.moduleID, b.moduleID);
    Lex.LessIsTotal(a.key, b.key);
    if KeyBefore(a, b) && KeyBefore(b, c) {
      if Lex.Less(a.moduleID, b.moduleID) && Lex.Less(b.moduleID, c.moduleID) {
        Lex.LessIsTransitive(a.moduleID, b.moduleID, c.moduleID);
      } else if a.moduleID == b.moduleID == c.moduleID {
        Lex.LessIsTransitive(a.key, b.key, c.key);
      }
    }
  }

  lemma {:induction false} InsertRowKeepsSorted(rows: seq<StoredOverride>, row: StoredOverride)
    requires SortedByKey(rows) && KeyOf(row) !in TableRead(rows)
    ensures SortedByKey(InsertRow(rows, row))
  {
    if rows != [] {
      KeyOrder(row, rows[0], row);
      if KeyBefore(row, rows[0]) {
        forall i | 1 <= i < |rows| ensures KeyBefore(row, rows[i]) {
          KeyOrder(row, rows[0], rows[i]);
        }
      } else {
        var rest := InsertRow(rows[1..], row);
        InsertRowKeepsSorted(rows[1..], row);
        InsertRowIsUpdate(rows[1..], row);
        forall i | 0 <= i < |rest| ensures KeyBefore(rows[0], rest[i]) {
          assert rest[i] in rest;
        }
      }
    }
  }

  /** Without the columns that nobody validates. */
  function WithoutAudit(rows: seq<StoredOverride>): seq<ThresholdOverride> {
    if rows == [] then []
    else [ThresholdOverride(rows[0].moduleID, rows[0].key, rows[0].value)] + WithoutAudit(rows[1..])
  }

  lemma {:induction false} WithoutAuditKeepsTheTable(rows: seq<StoredOverride>)
    requires SortedByKey(rows)
    ensures TableOf(WithoutAudit(rows)) == ValuesOf(TableRead(rows)) && Unique(WithoutAudit(rows))
  {
    if rows != [] {
      WithoutAuditKeepsTheTable(rows[1..]);
      HeadKeyIsNew(rows[0], rows[1..]);
    }
  }

  lemma {:induction false} HeadKeyIsNew(row: StoredOverride, rest: seq<StoredOverride>)
    requires forall i :: 0 <= i < |rest| ==> KeyBefore(row, rest[i])
    ensures KeyOf(row) !in TableRead(rest)
  {
    if rest != [] {
      Lex.LessIsTotal(row.moduleID, row.moduleID);
      Lex.LessIsTotal(row.key, row.key);
      HeadKeyIsNew(row, rest[1..]);
    }
  }

  method ToThresholdOverrides(rows: seq<StoredOverride>) returns (overrides: seq<ThresholdOverride>)
    ensures overrides == WithoutAudit(rows)
  {
    overrides := [];
    for i := 0 to |rows|
      invariant overrides + WithoutAudit(rows[i..]) == WithoutAudit(rows)
    {
      var o := ThresholdOverride(rows[i].moduleID, rows[i].key, rows[i].value);
      assert rows[i..][1..] == rows[i + 1..];
      assert overrides + ([o] + WithoutAudit(rows[i + 1..])) == (overrides + [o]) + WithoutAudit(rows[i + 1..]);
      overrides := overrides + [o];
    }
  }

  class Repositories {
    var overrides: map<(string, string), OverrideRow>
    var pending: map<string, PendingRow>

    function View(): Store
      reads this
    {
      Store(overrides, pending)
    }

    constructor ()
      ensures View() == Store(map[], map[])
    {
      overrides, pending := map[], map[];
    }

    /** SELECT ... ORDER BY module_id, key */
    method ListThresholdOverrides() returns (rows: seq<StoredOverride>)
      ensures TableRead(rows) == overrides && SortedByKey(rows)
    {
      rows := [];
      var remaining := overrides.Keys;
      while remaining != {}
        invariant remaining <= overrides.Keys
        invariant SortedByKey(rows) && TableRead(rows) == overrides - remaining
        decreases |remaining|
      {
        var k :| k in remaining;
        var row := StoredOverride(k.0, k.1, overrides[k].value, overrides[k].updatedBy, overrides[k].updatedAt);
        InsertRowIsUpdate(rows, row);
        InsertRowKeepsSorted(rows, row);
        rows := InsertRow(rows, row);
        assert (overrides - remaining)[k := overrides[k]] == overrides - (remaining - {k});
        remaining := remaining - {k};
      }
    }

    /** The id is the primary key: a second row with the same id is refused. */
    method InsertPendingConfirmation(id: string, row: PendingRow, faults: Faults) returns (error: Option<ProtocolError>)
      modifies this`pending
      ensures error == if faults.insert || id in old(pending) then Some(InsertFailed) else None
      ensures pending == if error.Some? then old(pending) else old(pending)[id := row]
    {
      if faults.insert || id in pending {
        return Some(InsertFailed);
      }
      pending := pending[id := row];
      return None;
    }

    /** Selects and deletes in one transaction, and only then looks at the expiry. */
    method ConsumePendingConfirmationForUser(id: string, user: int, at: int, faults: Faults)
      returns (r: Result<PendingRow, ProtocolError>)
      modifies this`pending
      ensures var e := ConsumeError(old(View()), id, user, faults);
              if e.Some? then r == Failure(e.value) && pending == old(pending)
              else
                && pending == old(pending) - {id}
                && r == if at >= old(pending)[id].expiresAt then Failure(Expired) else Success(old(pending)[id])
    {
      if faults.lookup {
        return Failure(LookupFailed);
      }
      if id !in pending {
        return Failure(NotFound);
      }
      var confirmation := pending[id];
      if confirmation.requestedBy != user {
        return Failure(WrongRequester);
      }
      if faults.remove {
        return Failure(RemoveFailed);
      }
      pending := pending - {id};
      if at >= confirmation.expiresAt {
        return Failure(Expired);
      }
      return Success(confirmation);
    }

    method UpsertThresholdOverride(moduleID: string, key: string, value: string, user: int, at: int, faults: Faults)
      returns (error: Option<ProtocolError>)
      modifies this`overrides
      ensures error == if faults.upsert then Some(UpsertFailed) else None
      ensures overrides == if faults.upsert then old(overrides)
        else old(overrides)[(moduleID, key) := OverrideRow(value, user, at)]
    {
      if faults.upsert {
        return Some(UpsertFailed);
      }
      overrides := overrides[(moduleID, key) := OverrideRow(value, user, at)];
      return None;
    }
  }

  class ThresholdProvider {
    const config: ProviderConfig
    const repos: Repositories
    ghost var history: History

    ghost function View(): Protocol
      reads this, repos
    {
      Protocol(repos.View(), history)
    }

    constructor (config: ProviderConfig, repos: Repositories)
      requires repos.View() == START.store
      ensures this.config == config && this.repos == repos && View() == START
    {
      this.config, this.repos := config, repos;
      history := START.history;
    }

    method ValidateChange(request: SetRequest, faults: Faults) returns (error: Option<ProtocolError>)
      ensures error == if faults.list then Some(ListFailed)
                       else if AcceptableNow(config, repos.View(), request) then None else Some(ChangeRejected)
    {
      if faults.list {
        return Some(ListFailed);
      }
      var rows := repos.ListThresholdOverrides();
      WithoutAuditKeepsTheTable(rows);
      var overrides := ToThresholdOverrides(rows);
      var invalid := ValidateThresholdChange(request.moduleID, request.key, request.value,
                                             ConfigOf(config, request.moduleID), overrides, config.assetDecimals);
      return if invalid.Some? then Some(ChangeRejected) else None;
    }

    method InsertConfirmation(id: string, row: PendingRow, faults: Faults) returns (error: Option<ProtocolError>)
      modifies this, repos
      ensures Step(View(), error) == InsertStep(old(View()), id, row, faults)
    {
      error := repos.InsertPendingConfirmation(id, row, faults);
      if error.None? {
        history := history.(inserted := history.inserted + [row], origin := history.origin[id := |history.inserted|]);
      }
    }

    method BuildSetConfirmation(request: SetRequest, now: int, faults: Faults) returns (error: Option<ProtocolError>)
      modifies this, repos
      ensures Step(View(), error) == SetStep(config, old(View()), request, now, faults)
    {
      var confirmation := BuildThresholdConfirmation(request);
      if confirmation.Failure? {
        return Some(confirmation.error);
      }
      var id := confirmation.value.id;
      error := ValidateChange(request, faults);
      if error.Some? {
        return;
      }
      error := InsertConfirmation(id, PendingRow(THRESHOLD_KIND, request, request.userID, now + TTL(config), now),
                                  faults);
    }

    method Confirm(user: int, id: string, now: int, faults: Faults) returns (error: Option<ProtocolError>)
      modifies this, repos
      ensures Step(View(), error) == ConfirmStep(config, old(View()), user, id, now, faults)
    {
      ghost var origin := OriginOf(View(), id);
      var consumed := repos.ConsumePendingConfirmationForUser(id, user, now, faults);
      if consumed.Failure? && !consumed.error.Expired? {
        return Some(consumed.error);
      }
      history := history.(origin := history.origin - {id}, discarded := history.discarded + [origin]);
      if consumed.Failure? {
        return Some(consumed.error);
      }
      var confirmation := consumed.value;
      if confirmation.kind != THRESHOLD_KIND {
        return Some(NotThreshold);
      }
      var request := confirmation.request;
      var rebuilt := BuildThresholdConfirmation(request);
      if rebuilt.Failure? {
        return Some(rebuilt.error);
      }
      error := ValidateChange(request, faults);
      if error.Some? {
        return;
      }
      error := repos.UpsertThresholdOverride(request.moduleID, request.key, request.value, confirmation.requestedBy,
                                             now, faults);
      if error.Some? {
        return;
      }
      ghost var applied := Applied(origin, |history.inserted|, request.moduleID, request.key, request.value,
                                   confirmation.requestedBy, now);
      history := History(history.inserted, history.origin, history.applied + [applied],
                         old(history).discarded);
      if faults.record {
        return Some(RecordFailed);
      }
      return None;
    }
  }

  /** thresholdOverrideModule: the module the monitor runs is the static one with whatever is
      stored at that moment. */
  class ThresholdOverrideModule {
    const inner: Module
    const repos: Repositories
    const assetDecimals: nat

    constructor (inner: Module, repos: Repositories, assetDecimals: nat)
      ensures this.inner == inner && this.repos == repos && this.assetDecimals == assetDecimals
    {
      this.inner, this.repos, this.assetDecimals := inner, repos, assetDecimals;
    }

    method EffectiveModule(listFails: bool) returns (r: Option<Module>)
      ensures r.Some? <==> !listFails && EffectiveExists(inner, ValuesOf(repos.overrides), assetDecimals)
      ensures r.Some? ==> r.value == Effective(inner, ValuesOf(repos.overrides), assetDecimals)
    {
      if listFails {
        return None;
      }
      var rows := repos.ListThresholdOverrides();
      WithoutAuditKeepsTheTable(rows);
      var overrides := ToThresholdOverrides(rows);
      var applied := ApplyOverrides(inner, overrides, assetDecimals);
      return if applied.Failure? then None else Some(applied.value);
    }

    method ValidateConfig(listFails: bool) returns (ok: bool)
      ensures ok <==>
                && !listFails
                && EffectiveExists(inner, ValuesOf(repos.overrides), assetDecimals)
                && PassesValidation(Effective(inner, ValuesOf(repos.overrides), assetDecimals))
    {
      var effective := EffectiveModule(listFails);
      return effective.Some? && PassesValidation(effective.value);
    }
  }
}
