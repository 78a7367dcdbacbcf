/** The vault state baseline: what has changed, field by field
    (internal/monitor/modules/morpho/vault_state.go). */
module VaultState {
  import opened Wrappers
  import opened Core
  import Lex

  /** A nil slice or map is None. */
  datatype Snapshot = Snapshot(
    owner: string,
    curator: string,
    receiveSharesGate: string,
    sendSharesGate: string,
    receiveAssetsGate: string,
    sendAssetsGate: string,
    adapterRegistry: string,
    liquidityAdapter: string,
    liquidityDataHex: string,
    performanceFee: string,
    performanceFeeRecipient: string,
    managementFee: string,
    managementFeeRecipient: string,
    maxRate: string,
    adapters: Option<seq<string>>,
    allocatorRoles: Option<map<string, bool>>,
    sentinelRoles: Option<map<string, bool>>,
    timelocks: Option<map<string, string>>,
    abdicated: Option<map<string, bool>>,
    forceDeallocatePenalties: Option<map<string, string>>)

  datatype FieldValue =
    | Text(text: string)
    | Names(names: Option<seq<string>>)
    | Flags(flags: Option<map<string, bool>>)
    | Texts(texts: Option<map<string, string>>)

  /** The names under which changes are reported. */
  datatype FieldName =
    | Owner | Curator | ReceiveSharesGate | SendSharesGate
    | ReceiveAssetsGate | SendAssetsGate | AdapterRegistry | LiquidityAdapter
    | LiquidityDataHex | PerformanceFee | PerformanceFeeRecipient | ManagementFee
    | ManagementFeeRecipient | MaxRate | Adapters | AllocatorRoles
    | SentinelRoles | Timelocks | Abdicated | ForceDeallocatePenalties

  function NameText(name: FieldName): string {
    match name
    case Owner => "owner"
    case Curator => "curator"
    case ReceiveSharesGate => "receive_shares_gate"
    case SendSharesGate => "send_shares_gate"
    case ReceiveAssetsGate => "receive_assets_gate"
    case SendAssetsGate => "send_assets_gate"
    case AdapterRegistry => "adapter_registry"
    case LiquidityAdapter => "liquidity_adapter"
    case LiquidityDataHex => "liquidity_data_hex"
    case PerformanceFee => "performance_fee"
    case PerformanceFeeRecipient => "performance_fee_recipient"
    case ManagementFee => "management_fee"
    case ManagementFeeRecipient => "management_fee_recipient"
    case MaxRate => "max_rate"
    case Adapters => "adapters"
    case AllocatorRoles => "allocator_roles"
    case SentinelRoles => "sentinel_roles"
    case Timelocks => "timelocks"
    case Abdicated => "abdicated"
    case ForceDeallocatePenalties => "force_deallocate_penalties"
  }

  datatype StateDiff = StateDiff(field: FieldName, expected: string, actual: string)

  /** The JSON encoder, of which nothing is assumed. */
  type Encoder = FieldValue -> string

  function ValueOf(s: Snapshot, name: FieldName): FieldValue {
    match name
    case Owner => Text(s.owner)
    case Curator => Text(s.curator)
    case ReceiveSharesGate => Text(s.receiveSharesGate)
    case SendSharesGate => Text(s.sendSharesGate)
    case ReceiveAssetsGate => Text(s.receiveAssetsGate)
    case SendAssetsGate => Text(s.sendAssetsGate)
    case AdapterRegistry => Text(s.adapterRegistry)
    case LiquidityAdapter => Text(s.liquidityAdapter)
    case LiquidityDataHex => Text(s.liquidityDataHex)
    case PerformanceFee => Text(s.performanceFee)
    case PerformanceFeeRecipient => Text(s.performanceFeeRecipient)
    case ManagementFee => Text(s.managementFee)
    case ManagementFeeRecipient => Text(s.managementFeeRecipient)
    case MaxRate => Text(s.maxRate)
    case Adapters => Names(s.adapters)
    case AllocatorRoles => Flags(s.allocatorRoles)
    case SentinelRoles => Flags(s.sentinelRoles)
    case Timelocks => Texts(s.timelocks)
    case Abdicated => Flags(s.abdicated)
    case ForceDeallocatePenalties => Texts(s.forceDeallocatePenalties)
  }

  /** A snapshot seen as what it says about every field. */
  type Values = FieldName -> FieldValue

  function ValuesOf(s: Snapshot): Values {
    (name: FieldName) => ValueOf(s, name)
  }

  predicate IsEmptyCollection(v: FieldValue) {
    match v
    case Text(_) => false
    case Names(names) => names.None? || |names.value| == 0
    case Flags(flags) => flags.None? || |flags.value| == 0
    case Texts(texts) => texts.None? || |texts.value| == 0
  }

  /** Different, but a nil and an empty collection are the same. */
  predicate Differ(a: FieldValue, b: FieldValue) {
    a != b && !(IsEmptyCollection(a) && IsEmptyCollection(b))
  }

  function Shown(json: Encoder, v: FieldValue): string {
    if v.Text? then v.text else json(v)
  }

  predicate Before(a: StateDiff, b: StateDiff) {
    Lex.Less(NameText(a.field), NameText(b.field))
  }

  predicate SortedByField(diffs: seq<StateDiff>) {
    forall i, j :: 0 <= i < j < |diffs| ==> Before(diffs[i], diffs[j])
  }

  /** d reports its field, with both values in their places, and the values differ. */
  ghost predicate Reports(json: Encoder, ve: Values, va: Values, d: StateDiff) {
    && Differ(ve(d.field), va(d.field))
    && d.expected == Shown(json, ve(d.field))
    && d.actual == Shown(json, va(d.field))
  }

  /** What a diff should be: strictly sorted by field, and holding exactly the reports of the
      fields in which the snapshots differ. */
  ghost predicate IsDiff(json: Encoder, expected: Snapshot, actual: Snapshot, diffs: seq<StateDiff>) {
    && SortedByField(diffs)
    && forall d :: d in diffs <==> Reports(json, ValuesOf(expected), ValuesOf(actual), d)
  }

  /** The place of a field in the order of comparison. */
  function Position(name: FieldName): (p: nat)
    ensures p < 20
  {
    match name
    case Owner => 0
    case Curator => 1
    case ReceiveSharesGate => 2
    case SendSharesGate => 3
    case ReceiveAssetsGate => 4
    case SendAssetsGate => 5
    case AdapterRegistry => 6
    case LiquidityAdapter => 7
    case LiquidityDataHex => 8
    case PerformanceFee => 9
    case PerformanceFeeRecipient => 10
    case ManagementFee => 11
    case ManagementFeeRecipient => 12
    case MaxRate => 13
    case Adapters => 14
    case AllocatorRoles => 15
    case SentinelRoles => 16
    case Timelocks => 17
    case Abdicated => 18
    case ForceDeallocatePenalties => 19
  }

  /** The same for the first k fields, not sorted yet. */
  ghost predicate Covers(json: Encoder, ve: Values, va: Values, diffs: seq<StateDiff>, k: nat) {
    && FieldsDiffer(diffs)
    && forall d :: d in diffs <==> Position(d.field) < k && Reports(json, ve, va, d)
  }

  predicate FieldsDiffer(diffs: seq<StateDiff>) {
    forall i, j :: 0 <= i < j < |diffs| ==> diffs[i].field != diffs[j].field
  }

  method AppendStringDiff(json: Encoder, ghost ve: Values, ghost va: Values, diffs: seq<StateDiff>,
                          name: FieldName, expected: string, actual: string) returns (r: seq<StateDiff>)
    requires Covers(json, ve, va, diffs, Position(name)) && ve(name) == Text(expected) && va(name) == Text(actual)
    ensures Covers(json, ve, va, r, Position(name) + 1)
  {
    PositionsDiffer(name);
    if expected == actual {
      return diffs;
    }
    return diffs + [StateDiff(name, expected, actual)];
  }

  method AppendComparableDiff(json: Encoder, ghost ve: Values, ghost va: Values, diffs: seq<StateDiff>,
                              name: FieldName, expected: FieldValue, actual: FieldValue) returns (r: seq<StateDiff>)
    requires Covers(json, ve, va, diffs, Position(name)) && ve(name) == expected && va(name) == actual
    requires !expected.Text? && !actual.Text?
    ensures Covers(json, ve, va, r, Position(name) + 1)
  {
    PositionsDiffer(name);
    if IsEmptyCollection(expected) && IsEmptyCollection(actual) {
      return diffs;
    }
    if expected == actual {
      return diffs;
    }
    return diffs + [StateDiff(name, json(expected), json(actual))];
  }

  lemma PositionsDiffer(name: FieldName)
    ensures forall other :: Position(other) == Position(name) ==> other == name
  {
  }

  method CompareAccess(json: Encoder, expected: Snapshot, actual: Snapshot, before: seq<StateDiff>)
    returns (diffs: seq<StateDiff>)
    requires Covers(json, ValuesOf(expected), ValuesOf(actual), before, 0)
    ensures Covers(json, ValuesOf(expected), ValuesOf(actual), diffs, 5)
  {
    ghost var ve, va := ValuesOf(expected), ValuesOf(actual);
    diffs := before;
    diffs := AppendStringDiff(json, ve, va, diffs, Owner, expected.owner, actual.owner);
    diffs := AppendStringDiff(json, ve, va, diffs, Curator, expected.curator, actual.curator);
    diffs := AppendStringDiff(json, ve, va, diffs, ReceiveSharesGate, expected.receiveSharesGate,
                              actual.receiveSharesGate);
    diffs := AppendStringDiff(json, ve, va, diffs, SendSharesGate, expected.sendSharesGate, actual.sendSharesGate);
    diffs := AppendStringDiff(json, ve, va, diffs, ReceiveAssetsGate, expected.receiveAssetsGate,
                              actual.receiveAssetsGate);
  }

  method CompareAdapters(json: Encoder, expected: Snapshot, actual: Snapshot, before: seq<StateDiff>)
    returns (diffs: seq<StateDiff>)
    requires Covers(json, ValuesOf(expected), ValuesOf(actual), before, 5)
    ensures Covers(json, ValuesOf(expected), ValuesOf(actual), diffs, 10)
  {
    ghost var ve, va := ValuesOf(expected), ValuesOf(actual);
    diffs := before;
    diffs := AppendStringDiff(json, ve, va, diffs, SendAssetsGate, expected.sendAssetsGate, actual.sendAssetsGate);
    diffs := AppendStringDiff(json, ve, va, diffs, AdapterRegistry, expected.adapterRegistry, actual.adapterRegistry);
    diffs := AppendStringDiff(json, ve, va, diffs, LiquidityAdapter, expected.liquidityAdapter,
                              actual.liquidityAdapter);
    diffs := AppendStringDiff(json, ve, va, diffs, LiquidityDataHex, expected.liquidityDataHex,
                              actual.liquidityDataHex);
    diffs := AppendStringDiff(json, ve, va, diffs, PerformanceFee, expected.performanceFee, actual.performanceFee);
  }

  method CompareFees(json: Encoder, expected: Snapshot, actual: Snapshot, before: seq<StateDiff>)
    returns (diffs: seq<StateDiff>)
    requires Covers(json, ValuesOf(expected), ValuesOf(actual), before, 10)
    ensures Covers(json, ValuesOf(expected), ValuesOf(actual), diffs, 14)
  {
    ghost var ve, va := ValuesOf(expected), ValuesOf(actual);
    diffs := before;
    diffs := AppendStringDiff(json, ve, va, diffs, PerformanceFeeRecipient, expected.performanceFeeRecipient,
                              actual.performanceFeeRecipient);
    diffs := AppendStringDiff(json, ve, va, diffs, ManagementFee, expected.managementFee, actual.managementFee);
    diffs := AppendStringDiff(json, ve, va, diffs, ManagementFeeRecipient, expected.managementFeeRecipient,
                              actual.managementFeeRecipient);
    diffs := AppendStringDiff(json, ve, va, diffs, MaxRate, expected.maxRate, actual.maxRate);
  }

  method CompareRoles(json: Encoder, expected: Snapshot, actual: Snapshot, before: seq<StateDiff>)
    returns (diffs: seq<StateDiff>)
    requires Covers(json, ValuesOf(expected), ValuesOf(actual), before, 14)
    ensures Covers(json, ValuesOf(expected), ValuesOf(actual), diffs, 17)
  {
    ghost var ve, va := ValuesOf(expected), ValuesOf(actual);
    diffs := before;
    diffs := AppendComparableDiff(json, ve, va, diffs, Adapters, Names(expected.adapters), Names(actual.adapters));
    diffs := AppendComparableDiff(json, ve, va, diffs, AllocatorRoles, Flags(expected.allocatorRoles),
                                  Flags(actual.allocatorRoles));
    diffs := AppendComparableDiff(json, ve, va, diffs, SentinelRoles, Flags(expected.sentinelRoles),
                                  Flags(actual.sentinelRoles));
  }

  method CompareTimelocks(json: Encoder, expected: Snapshot, actual: Snapshot, before: seq<StateDiff>)
    returns (diffs: seq<StateDiff>)
    requires Covers(json, ValuesOf(expected), ValuesOf(actual), before, 17)
    ensures Covers(json, ValuesOf(expected), ValuesOf(actual), diffs, 20)
  {
    ghost var ve, va := ValuesOf(expected), ValuesOf(actual);
    diffs := before;
    diffs := AppendComparableDiff(json, ve, va, diffs, Timelocks, Texts(expected.timelocks), Texts(actual.timelocks));
    diffs := AppendComparableDiff(json, ve, va, diffs, Abdicated, Flags(expected.abdicated), Flags(actual.abdicated));
    diffs := AppendComparableDiff(json, ve, va, diffs, ForceDeallocatePenalties,
                                  Texts(expected.forceDeallocatePenalties), Texts(actual.forceDeallocatePenalties));
  }

  method DiffVaultState(json: Encoder, expected: Snapshot, actual: Snapshot) returns (diffs: seq<StateDiff>)
    ensures IsDiff(json, expected, actual, diffs)
  {
    diffs := [];
    diffs := CompareAccess(json, expected, actual, diffs);
    diffs := CompareAdapters(json, expected, actual, diffs);
    diffs := CompareFees(json, expected, actual, diffs);
    diffs := CompareRoles(json, expected, actual, diffs);
    diffs := CompareTimelocks(json, expected, actual, diffs);
    SortKeepsAll(diffs);
    diffs := SortByField(diffs);
  }

  // ----- sorting; all fields are different, so every correct sort gives the same -----

  function InsertByField(sorted: seq<StateDiff>, d: StateDiff): seq<StateDiff> {
    if sorted == [] || Before(d, sorted[0]) then [d] + sorted
    else [sorted[0]] + InsertByField(sorted[1..], d)
  }

  function SortByField(diffs: seq<StateDiff>): seq<StateDiff> {
    if diffs == [] then [] else InsertByField(SortByField(diffs[1..]), diffs[0])
  }

  lemma {:induction false} InsertKeepsAll(sorted: seq<StateDiff>, d: StateDiff)
    ensures forall e :: e in InsertByField(sorted, d) <==> e == d || e in sorted
  {
    if sorted != [] && !Before(d, sorted[0]) {
      InsertKeepsAll(sorted[1..], d);
    }
  }

  lemma {:induction false} InsertKeepsSorted(sorted: seq<StateDiff>, d: StateDiff)
    requires SortedByField(sorted) && forall i :: 0 <= i < |sorted| ==> sorted[i].field != d.field
    ensures SortedByField(InsertByField(sorted, d))
  {
    if sorted != [] {
      BeforeIsTotal(d, sorted[0]);
      if Before(d, sorted[0]) {
        forall i | 0 < i < |sorted| ensures Before(d, sorted[i]) {
          Lex.LessIsTransitive(NameText(d.field), NameText(sorted[0].field), NameText(sorted[i].field));
        }
      } else {
        InsertKeepsSorted(sorted[1..], d);
        InsertKeepsAll(sorted[1..], d);
        var rest := InsertByField(sorted[1..], d);
        forall i | 0 <= i < |rest| ensures Before(sorted[0], rest[i]) {
          assert rest[i] in rest;
        }
      }
    }
  }

  lemma {:induction false} SortKeepsAll(diffs: seq<StateDiff>)
    requires FieldsDiffer(diffs)
    ensures SortedByField(SortByField(diffs))
    ensures forall e :: e in SortByField(diffs) <==> e in diffs
  {
    if diffs != [] {
      SortKeepsAll(diffs[1..]);
      var rest := SortByField(diffs[1..]);
      forall i | 0 <= i < |rest| ensures rest[i].field != diffs[0].field {
        assert rest[i] in diffs[1..];
      }
      InsertKeepsSorted(rest, diffs[0]);
      InsertKeepsAll(rest, diffs[0]);
    }
  }

  /** Tells the field names apart by length and one or two of their characters. */
  function FieldIndex(name: string): int
    requires |name| >= 5
  {
    if |name| == 5 then 0
    else if |name| == 7 then 1
    else if |name| == 19 then (if name[8] == 's' then 2 else 4)
    else if |name| == 16 then (if name[0] == 'a' then 6 else if name[5] == 's' then 3 else 5)
    else if |name| == 17 then 7
    else if |name| == 18 then 8
    else if |name| == 15 then (if name[0] == 'p' then 9 else 15)
    else if |name| == 25 then 10
    else if |name| == 14 then (if name[0] == 'm' then 11 else 16)
    else if |name| == 24 then 12
    else if |name| == 8 then (if name[0] == 'm' then 13 else 14)
    else if |name| == 9 then (if name[0] == 't' then 17 else 18)
    else 19
  }

  lemma NameTextsDiffer(a: FieldName, b: FieldName)
    ensures NameText(a) == NameText(b) <==> a == b
  {
    NameTextPosition(a);
    NameTextPosition(b);
  }

  lemma NameTextPosition(name: FieldName)
    ensures |NameText(name)| >= 5 && FieldIndex(NameText(name)) == Position(name)
  {
  }

  lemma BeforeIsTotal(a: StateDiff, b: StateDiff)
    ensures Before(a, b) || a.field == b.field || Before(b, a)
    ensures !(Before(a, b) && Before(b, a)) && !Before(a, a)
  {
    Lex.LessIsTotal(NameText(a.field), NameText(b.field));
    NameTextsDiffer(a.field, b.field);
  }

  // ----- what a diff tells -----

  lemma HeadIsNotInTail(a: seq<StateDiff>)
    requires SortedByField(a) && a != []
    ensures a[0] !in a[1..]
  {
    BeforeIsTotal(a[0], a[0]);
    forall i | 1 <= i < |a| ensures a[i] != a[0] {
      assert Before(a[0], a[i]);
    }
  }

  lemma TailMember(a: seq<StateDiff>, d: StateDiff)
    requires a != []
    ensures d in a <==> d == a[0] || d in a[1..]
  {
    assert a == [a[0]] + a[1..];
  }

  lemma HasMembersToo(a: seq<StateDiff>, b: seq<StateDiff>)
    requires a != [] && forall d :: d in a <==> d in b
    ensures b != []
  {
    assert a[0] in b;
  }

  lemma {:induction false} SortedDiffsAreEqual(a: seq<StateDiff>, b: seq<StateDiff>)
    requires SortedByField(a) && SortedByField(b)
    requires forall d :: d in a <==> d in b
    ensures a == b
  {
    if a != [] {
      HasMembersToo(a, b);
    }
    if b != [] {
      HasMembersToo(b, a);
    }
    if a != [] {
      assert a[0] in b && b[0] in a;
      BeforeIsTotal(a[0], b[0]);
      BeforeIsTotal(a[0], a[0]);
      assert a[0] == b[0];
      HeadIsNotInTail(a);
      HeadIsNotInTail(b);
      forall d ensures d in a[1..] <==> d in b[1..] {
        TailMember(a, d);
        TailMember(b, d);
      }
      SortedDiffsAreEqual(a[1..], b[1..]);
    }
  }

  /** The specification leaves no choice: there is only one diff of two snapshots. */
  lemma DiffIsUnique(json: Encoder, expected: Snapshot, actual: Snapshot, a: seq<StateDiff>, b: seq<StateDiff>)
    requires IsDiff(json, expected, actual, a) && IsDiff(json, expected, actual, b)
    ensures a == b
  {
    SortedDiffsAreEqual(a, b);
  }

  ghost predicate Equivalent(a: Snapshot, b: Snapshot) {
    Agree(ValuesOf(a), ValuesOf(b))
  }

  ghost predicate Agree(va: Values, vb: Values) {
    forall name :: !Differ(va(name), vb(name))
  }

  /** A field has an entry exactly when the snapshots differ in it, and then only one. */
  lemma DiffHasField(json: Encoder, expected: Snapshot, actual: Snapshot, diffs: seq<StateDiff>, name: FieldName)
    requires IsDiff(json, expected, actual, diffs)
    ensures Differ(ValueOf(expected, name), ValueOf(actual, name))
            <==> exists i :: 0 <= i < |diffs| && diffs[i].field == name
    ensures forall i, j :: 0 <= i < j < |diffs| ==> diffs[i].field != diffs[j].field
  {
    HasField(json, ValuesOf(expected), ValuesOf(actual), diffs, name);
    forall i, j | 0 <= i < j < |diffs| ensures diffs[i].field != diffs[j].field {
      assert Before(diffs[i], diffs[j]);
      BeforeIsTotal(diffs[i], diffs[j]);
      BeforeIsTotal(diffs[i], diffs[i]);
    }
  }

  lemma HasField(json: Encoder, ve: Values, va: Values, diffs: seq<StateDiff>, name: FieldName)
    requires forall d :: d in diffs <==> Reports(json, ve, va, d)
    ensures Differ(ve(name), va(name)) <==> exists i :: 0 <= i < |diffs| && diffs[i].field == name
  {
    if Differ(ve(name), va(name)) {
      assert StateDiff(name, Shown(json, ve(name)), Shown(json, va(name))) in diffs;
    }
    forall i | 0 <= i < |diffs| ensures Reports(json, ve, va, diffs[i]) {
      assert diffs[i] in diffs;
    }
  }

  /** The diff is empty exactly between equivalent snapshots. */
  lemma EmptyDiffMeansEquivalent(json: Encoder, expected: Snapshot, actual: Snapshot, diffs: seq<StateDiff>)
    requires IsDiff(json, expected, actual, diffs)
    ensures diffs == [] <==> Equivalent(expected, actual)
  {
    EmptyMeansAgree(json, ValuesOf(expected), ValuesOf(actual), diffs);
  }

  lemma EmptyMeansAgree(json: Encoder, ve: Values, va: Values, diffs: seq<StateDiff>)
    requires forall d :: d in diffs <==> Reports(json, ve, va, d)
    ensures diffs == [] <==> Agree(ve, va)
  {
    forall name ensures Differ(ve(name), va(name)) <==> exists i :: 0 <= i < |diffs| && diffs[i].field == name {
      HasField(json, ve, va, diffs, name);
    }
    if diffs != [] {
      assert Differ(ve(diffs[0].field), va(diffs[0].field));
    }
  }

  /** Being equivalent is an equivalence, although nil and empty collections are mixed. */
  lemma EquivalentIsAnEquivalence(a: Snapshot, b: Snapshot, c: Snapshot)
    ensures Equivalent(a, a)
    ensures Equivalent(a, b) <==> Equivalent(b, a)
    ensures Equivalent(a, b) && Equivalent(b, c) ==> Equivalent(a, c)
  {
    AgreeIsAnEquivalence(ValuesOf(a), ValuesOf(b), ValuesOf(c));
  }

  lemma AgreeIsAnEquivalence(va: Values, vb: Values, vc: Values)
    ensures Agree(va, va)
    ensures Agree(va, vb) <==> Agree(vb, va)
    ensures Agree(va, vb) && Agree(vb, vc) ==> Agree(va, vc)
  {
    forall name ensures Differ(va(name), vc(name)) ==> Differ(va(name), vb(name)) || Differ(vb(name), vc(name)) {
    }
    forall name ensures Differ(va(name), vb(name)) <==> Differ(vb(name), va(name)) {
    }
  }

  function Swap(d: StateDiff): StateDiff {
    StateDiff(d.field, d.actual, d.expected)
  }

  function Swapped(diffs: seq<StateDiff>): (r: seq<StateDiff>)
    ensures |r| == |diffs|
    ensures forall i :: 0 <= i < |diffs| ==> r[i] == Swap(diffs[i])
  {
    if diffs == [] then [] else [Swap(diffs[0])] + Swapped(diffs[1..])
  }

  /** Swapping the snapshots swaps expected and actual, entry by entry. */
  lemma DiffOfSwappedSnapshots(json: Encoder, expected: Snapshot, actual: Snapshot, diffs: seq<StateDiff>,
                               swapped: seq<StateDiff>)
    requires IsDiff(json, expected, actual, diffs) && IsDiff(json, actual, expected, swapped)
    ensures swapped == Swapped(diffs)
  {
    SwappedReports(json, ValuesOf(expected), ValuesOf(actual), diffs, swapped);
    SortedDiffsAreEqual(Swapped(diffs), swapped);
  }

  lemma SwappedReports(json: Encoder, ve: Values, va: Values, diffs: seq<StateDiff>, swapped: seq<StateDiff>)
    requires forall d :: d in diffs <==> Reports(json, ve, va, d)
    requires forall d :: d in swapped <==> Reports(json, va, ve, d)
    ensures forall d :: d in Swapped(diffs) <==> d in swapped
  {
    var r := Swapped(diffs);
    forall d ensures d in r <==> d in swapped {
      if d in r {
        var i :| 0 <= i < |r| && r[i] == d;
        assert diffs[i] == Swap(d) && diffs[i] in diffs;
      }
      if Swap(d) in diffs {
        var i :| 0 <= i < |diffs| && diffs[i] == Swap(d);
        assert r[i] == d;
      }
      assert Reports(json, ve, va, Swap(d)) <==> Reports(json, va, ve, d);
    }
  }

  // ----- the members of a snapshot -----

  /** Equal, or both without elements; a nil collection has none. */
  predicate SameList(a: Option<seq<string>>, b: Option<seq<string>>) {
    a == b || ((a.None? || a.value == []) && (b.None? || b.value == []))
  }

  predicate SameMap<V(==)>(a: Option<map<string, V>>, b: Option<map<string, V>>) {
    a == b || ((a.None? || a.value == map[]) && (b.None? || b.value == map[]))
  }

  /** The fourteen texts and the six collections. */
  predicate SameMembers(a: Snapshot, b: Snapshot) {
    SameTexts(a, b) && SameCollections(a, b)
  }

  predicate SameTexts(a: Snapshot, b: Snapshot) {
    && a.owner == b.owner
    && a.curator == b.curator
    && a.receiveSharesGate == b.receiveSharesGate
    && a.sendSharesGate == b.sendSharesGate
    && a.receiveAssetsGate == b.receiveAssetsGate
    && a.sendAssetsGate == b.sendAssetsGate
    && a.adapterRegistry == b.adapterRegistry
    && a.liquidityAdapter == b.liquidityAdapter
    && a.liquidityDataHex == b.liquidityDataHex
    && a.performanceFee == b.performanceFee
    && a.performanceFeeRecipient == b.performanceFeeRecipient
    && a.managementFee == b.managementFee
    && a.managementFeeRecipient == b.managementFeeRecipient
    && a.maxRate == b.maxRate
  }

  predicate SameCollections(a: Snapshot, b: Snapshot) {
    && SameList(a.adapters, b.adapters)
    && SameMap(a.allocatorRoles, b.allocatorRoles)
    && SameMap(a.sentinelRoles, b.sentinelRoles)
    && SameMap(a.timelocks, b.timelocks)
    && SameMap(a.abdicated, b.abdicated)
    && SameMap(a.forceDeallocatePenalties, b.forceDeallocatePenalties)
  }

  lemma DifferAsMembersDo(a: Snapshot, b: Snapshot, name: FieldName)
    ensures name.Adapters? ==> (Differ(ValueOf(a, name), ValueOf(b, name)) <==> !SameList(a.adapters, b.adapters))
    ensures name.AllocatorRoles? ==>
              (Differ(ValueOf(a, name), ValueOf(b, name)) <==> !SameMap(a.allocatorRoles, b.allocatorRoles))
    ensures name.SentinelRoles? ==>
              (Differ(ValueOf(a, name), ValueOf(b, name)) <==> !SameMap(a.sentinelRoles, b.sentinelRoles))
    ensures name.Timelocks? ==> (Differ(ValueOf(a, name), ValueOf(b, name)) <==> !SameMap(a.timelocks, b.timelocks))
    ensures name.Abdicated? ==> (Differ(ValueOf(a, name), ValueOf(b, name)) <==> !SameMap(a.abdicated, b.abdicated))
    ensures name.ForceDeallocatePenalties? ==>
              (Differ(ValueOf(a, name), ValueOf(b, name))
               <==> !SameMap(a.forceDeallocatePenalties, b.forceDeallocatePenalties))
  {
  }

  /** Two snapshots are equivalent exactly when all their members are the same: none of the
      twenty goes unwatched. */
  lemma EquivalentMeansSameMembers(a: Snapshot, b: Snapshot)
    ensures Equivalent(a, b) <==> SameMembers(a, b)
  {
    forall name ensures ValuesOf(a)(name) == ValueOf(a, name) && ValuesOf(b)(name) == ValueOf(b, name) {}
    if SameMembers(a, b) {
      forall name ensures !Differ(ValueOf(a, name), ValueOf(b, name)) {
        DifferAsMembersDo(a, b, name);
      }
    }
    if Equivalent(a, b) {
      EquivalentHasSameMembers(a, b);
    }
  }

  lemma EquivalentHasSameMembers(a: Snapshot, b: Snapshot)
    requires Equivalent(a, b)
    ensures SameMembers(a, b)
  {
    EquivalentHasSameTexts(a, b);
    EquivalentHasSameCollections(a, b);
  }

  lemma EquivalentHasSameTexts(a: Snapshot, b: Snapshot)
    requires Equivalent(a, b)
    ensures SameTexts(a, b)
  {
    SameText(a, b, Owner, a.owner, b.owner);
    SameText(a, b, Curator, a.curator, b.curator);
    SameText(a, b, ReceiveSharesGate, a.receiveSharesGate, b.receiveSharesGate);
    SameText(a, b, SendSharesGate, a.sendSharesGate, b.sendSharesGate);
    SameText(a, b, ReceiveAssetsGate, a.receiveAssetsGate, b.receiveAssetsGate);
    SameText(a, b, SendAssetsGate, a.sendAssetsGate, b.sendAssetsGate);
    SameText(a, b, AdapterRegistry, a.adapterRegistry, b.adapterRegistry);
    SameText(a, b, LiquidityAdapter, a.liquidityAdapter, b.liquidityAdapter);
    SameText(a, b, LiquidityDataHex, a.liquidityDataHex, b.liquidityDataHex);
    SameText(a, b, PerformanceFee, a.performanceFee, b.performanceFee);
    SameText(a, b, PerformanceFeeRecipient, a.performanceFeeRecipient, b.performanceFeeRecipient);
    SameText(a, b, ManagementFee, a.managementFee, b.managementFee);
    SameText(a, b, ManagementFeeRecipient, a.managementFeeRecipient, b.managementFeeRecipient);
    SameText(a, b, MaxRate, a.maxRate, b.maxRate);
  }

  lemma EquivalentHasSameCollections(a: Snapshot, b: Snapshot)
    requires Equivalent(a, b)
    ensures SameCollections(a, b)
  {
    SameCollection(a, b, Adapters, Names(a.adapters), Names(b.adapters));
    SameCollection(a, b, AllocatorRoles, Flags(a.allocatorRoles), Flags(b.allocatorRoles));
    SameCollection(a, b, SentinelRoles, Flags(a.sentinelRoles), Flags(b.sentinelRoles));
    SameCollection(a, b, Timelocks, Texts(a.timelocks), Texts(b.timelocks));
    SameCollection(a, b, Abdicated, Flags(a.abdicated), Flags(b.abdicated));
    SameCollection(a, b, ForceDeallocatePenalties, Texts(a.forceDeallocatePenalties),
                   Texts(b.forceDeallocatePenalties));
  }

  lemma SameText(a: Snapshot, b: Snapshot, name: FieldName, x: string, y: string)
    requires Equivalent(a, b) && ValueOf(a, name) == Text(x) && ValueOf(b, name) == Text(y)
    ensures x == y
  {
    assert !Differ(ValuesOf(a)(name), ValuesOf(b)(name));
  }

  lemma SameCollection(a: Snapshot, b: Snapshot, name: FieldName, x: FieldValue, y: FieldValue)
    requires Equivalent(a, b) && ValueOf(a, name) == x && ValueOf(b, name) == y
    ensures !Differ(x, y)
  {
    assert !Differ(ValuesOf(a)(name), ValuesOf(b)(name));
  }

  /** The names under which changes are reported. */
  lemma NamesAre()
    ensures NameText(Owner) == "owner"
    ensures NameText(Curator) == "curator"
    ensures NameText(ReceiveSharesGate) == "receive_shares_gate"
    ensures NameText(SendSharesGate) == "send_shares_gate"
    ensures NameText(ReceiveAssetsGate) == "receive_assets_gate"
    ensures NameText(SendAssetsGate) == "send_assets_gate"
    ensures NameText(AdapterRegistry) == "adapter_registry"
    ensures NameText(LiquidityAdapter) == "liquidity_adapter"
    ensures NameText(LiquidityDataHex) == "liquidity_data_hex"
    ensures NameText(PerformanceFee) == "performance_fee"
    ensures NameText(PerformanceFeeRecipient) == "performance_fee_recipient"
    ensures NameText(ManagementFee) == "management_fee"
    ensures NameText(ManagementFeeRecipient) == "management_fee_recipient"
    ensures NameText(MaxRate) == "max_rate"
    ensures NameText(Adapters) == "adapters"
    ensures NameText(AllocatorRoles) == "allocator_roles"
    ensures NameText(SentinelRoles) == "sentinel_roles"
    ensures NameText(Timelocks) == "timelocks"
    ensures NameText(Abdicated) == "abdicated"
    ensures NameText(ForceDeallocatePenalties) == "force_deallocate_penalties"
  {
  }

  /** The diff has an entry for a field exactly if there is a change, and then with these two
      values in their places. */
  predicate Tells(diffs: seq<StateDiff>, name: FieldName, changed: bool, expected: string, actual: string) {
    && (changed <==> exists i :: 0 <= i < |diffs| && diffs[i].field == name)
    && forall i :: 0 <= i < |diffs| && diffs[i].field == name ==>
         diffs[i].expected == expected && diffs[i].actual == actual
  }

  lemma FieldTold(json: Encoder, expected: Snapshot, actual: Snapshot, diffs: seq<StateDiff>, name: FieldName)
    requires IsDiff(json, expected, actual, diffs)
    ensures Tells(diffs, name, Differ(ValueOf(expected, name), ValueOf(actual, name)),
                  Shown(json, ValueOf(expected, name)), Shown(json, ValueOf(actual, name)))
  {
    DiffHasField(json, expected, actual, diffs, name);
    forall i | 0 <= i < |diffs| ensures Reports(json, ValuesOf(expected), ValuesOf(actual), diffs[i]) {
      assert diffs[i] in diffs;
    }
  }

  lemma TextTold(json: Encoder, e: Snapshot, a: Snapshot, diffs: seq<StateDiff>, name: FieldName, x: string, y: string)
    requires IsDiff(json, e, a, diffs) && ValueOf(e, name) == Text(x) && ValueOf(a, name) == Text(y)
    ensures Tells(diffs, name, x != y, x, y)
  {
    FieldTold(json, e, a, diffs, name);
  }

  lemma NamesTold(json: Encoder, e: Snapshot, a: Snapshot, diffs: seq<StateDiff>, name: FieldName,
                  x: Option<seq<string>>, y: Option<seq<string>>)
    requires IsDiff(json, e, a, diffs) && ValueOf(e, name) == Names(x) && ValueOf(a, name) == Names(y)
    ensures Tells(diffs, name, !SameList(x, y), json(Names(x)), json(Names(y)))
  {
    FieldTold(json, e, a, diffs, name);
  }

  lemma FlagsTold(json: Encoder, e: Snapshot, a: Snapshot, diffs: seq<StateDiff>, name: FieldName,
                  x: Option<map<string, bool>>, y: Option<map<string, bool>>)
    requires IsDiff(json, e, a, diffs) && ValueOf(e, name) == Flags(x) && ValueOf(a, name) == Flags(y)
    ensures Tells(diffs, name, !SameMap(x, y), json(Flags(x)), json(Flags(y)))
  {
    FieldTold(json, e, a, diffs, name);
  }

  lemma TextsTold(json: Encoder, e: Snapshot, a: Snapshot, diffs: seq<StateDiff>, name: FieldName,
                  x: Option<map<string, string>>, y: Option<map<string, string>>)
    requires IsDiff(json, e, a, diffs) && ValueOf(e, name) == Texts(x) && ValueOf(a, name) == Texts(y)
    ensures Tells(diffs, name, !SameMap(x, y), json(Texts(x)), json(Texts(y)))
  {
    FieldTold(json, e, a, diffs, name);
  }

  /** What each of the fourteen text fields stands for: owner, curator and the gates. */
  lemma DiffTellsRolesAndGates(json: Encoder, e: Snapshot, a: Snapshot, diffs: seq<StateDiff>)
    requires IsDiff(json, e, a, diffs)
    ensures Tells(diffs, Owner, e.owner != a.owner, e.owner, a.owner)
    ensures Tells(diffs, Curator, e.curator != a.curator, e.curator, a.curator)
    ensures Tells(diffs, ReceiveSharesGate, e.receiveSharesGate != a.receiveSharesGate, e.receiveSharesGate,
                  a.receiveSharesGate)
    ensures Tells(diffs, SendSharesGate, e.sendSharesGate != a.sendSharesGate, e.sendSharesGate, a.sendSharesGate)
    ensures Tells(diffs, ReceiveAssetsGate, e.receiveAssetsGate != a.receiveAssetsGate, e.receiveAssetsGate,
                  a.receiveAssetsGate)
    ensures Tells(diffs, SendAssetsGate, e.sendAssetsGate != a.sendAssetsGate, e.sendAssetsGate, a.sendAssetsGate)
  {
    TextTold(json, e, a, diffs, Owner, e.owner, a.owner);
    TextTold(json, e, a, diffs, Curator, e.curator, a.curator);
    TextTold(json, e, a, diffs, ReceiveSharesGate, e.receiveSharesGate, a.receiveSharesGate);
    TextTold(json, e, a, diffs, SendSharesGate, e.sendSharesGate, a.sendSharesGate);
    TextTold(json, e, a, diffs, ReceiveAssetsGate, e.receiveAssetsGate, a.receiveAssetsGate);
    TextTold(json, e, a, diffs, SendAssetsGate, e.sendAssetsGate, a.sendAssetsGate);
  }

  /** The adapters and the liquidity data. */
  lemma DiffTellsAdapters(json: Encoder, e: Snapshot, a: Snapshot, diffs: seq<StateDiff>)
    requires IsDiff(json, e, a, diffs)
    ensures Tells(diffs, AdapterRegistry, e.adapterRegistry != a.adapterRegistry, e.adapterRegistry, a.adapterRegistry)
    ensures Tells(diffs, LiquidityAdapter, e.liquidityAdapter != a.liquidityAdapter, e.liquidityAdapter,
                  a.liquidityAdapter)
    ensures Tells(diffs, LiquidityDataHex, e.liquidityDataHex != a.liquidityDataHex, e.liquidityDataHex,
                  a.liquidityDataHex)
  {
    TextTold(json, e, a, diffs, AdapterRegistry, e.adapterRegistry, a.adapterRegistry);
    TextTold(json, e, a, diffs, LiquidityAdapter, e.liquidityAdapter, a.liquidityAdapter);
    TextTold(json, e, a, diffs, LiquidityDataHex, e.liquidityDataHex, a.liquidityDataHex);
  }

  /** The fees and the rate. */
  lemma DiffTellsFees(json: Encoder, e: Snapshot, a: Snapshot, diffs: seq<StateDiff>)
    requires IsDiff(json, e, a, diffs)
    ensures Tells(diffs, PerformanceFee, e.performanceFee != a.performanceFee, e.performanceFee, a.performanceFee)
    ensures Tells(diffs, PerformanceFeeRecipient, e.performanceFeeRecipient != a.performanceFeeRecipient,
                  e.performanceFeeRecipient, a.performanceFeeRecipient)
    ensures Tells(diffs, ManagementFee, e.managementFee != a.managementFee, e.managementFee, a.managementFee)
    ensures Tells(diffs, ManagementFeeRecipient, e.managementFeeRecipient != a.managementFeeRecipient,
                  e.managementFeeRecipient, a.managementFeeRecipient)
    ensures Tells(diffs, MaxRate, e.maxRate != a.maxRate, e.maxRate, a.maxRate)
  {
    TextTold(json, e, a, diffs, PerformanceFee, e.performanceFee, a.performanceFee);
    TextTold(json, e, a, diffs, PerformanceFeeRecipient, e.performanceFeeRecipient, a.performanceFeeRecipient);
    TextTold(json, e, a, diffs, ManagementFee, e.managementFee, a.managementFee);
    TextTold(json, e, a, diffs, ManagementFeeRecipient, e.managementFeeRecipient, a.managementFeeRecipient);
    TextTold(json, e, a, diffs, MaxRate, e.maxRate, a.maxRate);
  }

  /** And the six collections, shown as JSON. */
  lemma DiffTellsCollections(json: Encoder, e: Snapshot, a: Snapshot, diffs: seq<StateDiff>)
    requires IsDiff(json, e, a, diffs)
    ensures Tells(diffs, Adapters, !SameList(e.adapters, a.adapters),
                  json(Names(e.adapters)), json(Names(a.adapters)))
    ensures Tells(diffs, AllocatorRoles, !SameMap(e.allocatorRoles, a.allocatorRoles),
                  json(Flags(e.allocatorRoles)), json(Flags(a.allocatorRoles)))
    ensures Tells(diffs, SentinelRoles, !SameMap(e.sentinelRoles, a.sentinelRoles),
                  json(Flags(e.sentinelRoles)), json(Flags(a.sentinelRoles)))
    ensures Tells(diffs, Timelocks, !SameMap(e.timelocks, a.timelocks),
                  json(Texts(e.timelocks)), json(Texts(a.timelocks)))
    ensures Tells(diffs, Abdicated, !SameMap(e.abdicated, a.abdicated),
                  json(Flags(e.abdicated)), json(Flags(a.abdicated)))
    ensures Tells(diffs, ForceDeallocatePenalties, !SameMap(e.forceDeallocatePenalties, a.forceDeallocatePenalties),
                  json(Texts(e.forceDeallocatePenalties)), json(Texts(a.forceDeallocatePenalties)))
  {
    NamesTold(json, e, a, diffs, Adapters, e.adapters, a.adapters);
    FlagsTold(json, e, a, diffs, AllocatorRoles, e.allocatorRoles, a.allocatorRoles);
    FlagsTold(json, e, a, diffs, SentinelRoles, e.sentinelRoles, a.sentinelRoles);
    TextsTold(json, e, a, diffs, Timelocks, e.timelocks, a.timelocks);
    FlagsTold(json, e, a, diffs, Abdicated, e.abdicated, a.abdicated);
    TextsTold(json, e, a, diffs, ForceDeallocatePenalties, e.forceDeallocatePenalties, a.forceDeallocatePenalties);
  }

  // ----- the module -----

  datatype ModuleError = ReaderRequired | SeverityInvalid | ReadFailed

  datatype VaultStateModule = VaultStateModule(hasReader: bool, baseline: Snapshot, changeSeverity: Severity)

  function ValidateConfig(m: VaultStateModule): (r: Option<ModuleError>)
    ensures r.None? <==> m.hasReader && (m.changeSeverity in {Warn, Urgent} || m.changeSeverity == OtherText(""))
  {
    if !m.hasReader then Some(ReaderRequired)
    else if m.changeSeverity.OtherText? && m.changeSeverity.text != "" then Some(SeverityInvalid)
    else None
  }

  function ResolvedSeverity(m: VaultStateModule): Severity {
    if m.changeSeverity == Warn then Warn else Urgent
  }

  function Evidence(d: StateDiff): map<string, Printed> {
    map["field" := Word(NameText(d.field)), "expected" := Word(d.expected), "actual" := Word(d.actual)]
  }

  function DiffFinding(severity: Severity, d: StateDiff): Finding {
    Finding(FINDING_VAULT_STATE_DIFF, severity, "vault state changed from baseline", Evidence(d))
  }

  /** One finding for each difference, in the order of the differences. */
  predicate FindingsMatch(findings: seq<Finding>, severity: Severity, diffs: seq<StateDiff>) {
    && |findings| == |diffs|
    && forall i :: 0 <= i < |diffs| ==>
         && findings[i].key == "vault_state_diff" && findings[i].severity == severity
         && findings[i].message == "vault state changed from baseline"
         && findings[i].evidence == map["field" := Word(NameText(diffs[i].field)),
                                        "expected" := Word(diffs[i].expected), "actual" := Word(diffs[i].actual)]
  }

  predicate Observable(m: VaultStateModule, reading: Result<Snapshot, Unseen>) {
    ValidateConfig(m).None? && reading.Success?
  }

  /** What the module has to say about a snapshot. */
  ghost predicate Describes(json: Encoder, m: VaultStateModule, actual: Snapshot, now: int, result: MonitorResult) {
    && result.moduleID == MODULE_VAULT_STATE && result.observedAt == now
    && result.metrics == [Metric("diff_count", Number(|result.findings|), "count")]
    && Honest(result) && result.status != UNKNOWN
    && (result.status == OK <==> Equivalent(m.baseline, actual))
    && (result.status == URGENT <==> !Equivalent(m.baseline, actual) && m.changeSeverity != Warn)
    && exists diffs: seq<StateDiff> ::
         && IsDiff(json, m.baseline, actual, diffs)
         && FindingsMatch(result.findings, if m.changeSeverity == Warn then Warn else Urgent, diffs)
  }

  method Monitor(json: Encoder, m: VaultStateModule, reading: Result<Snapshot, Unseen>, now: int)
    returns (r: Result<MonitorResult, ModuleError>)
    ensures r.Success? <==> Observable(m, reading)
    ensures r.Success? ==> Describes(json, m, reading.value, now, r.value)
    ensures ValidateConfig(m).Some? ==> r == Failure(ValidateConfig(m).value)
  {
    var problem := ValidateConfig(m);
    if problem.Some? {
      return Failure(problem.value);
    }
    if reading.Failure? {
      return Failure(ReadFailed);
    }
    var diffs := DiffVaultState(json, m.baseline, reading.value);
    EmptyDiffMeansEquivalent(json, m.baseline, reading.value, diffs);
    var status := OK;
    var findings: seq<Finding> := [];
    var severity := ResolvedSeverity(m);
    if |diffs| > 0 {
      status := if severity == Warn then WARN else URGENT;
      for i := 0 to |diffs|
        invariant FindingsMatch(findings, severity, diffs[..i])
      {
        findings := findings + [DiffFinding(severity, diffs[i])];
      }
      assert diffs[..|diffs|] == diffs;
      assert findings[0].severity == severity;
    }
    return Success(MonitorResult(MODULE_VAULT_STATE, status, now, [Metric("diff_count", Number(|diffs|), "count")],
                                 findings));
  }
}
