/** Results as they lie in memory, with slices and maps that can be shared, and the deep
    copies that keep them apart (internal/core/clone.go). */
module Clone {
  import opened Core

  /** A Go map from text to text; null is the nil map. */
  class EvidenceMap {
    var entries: map<string, Printed>

    constructor ()
      ensures entries == map[]
    {
      entries := map[];
    }
  }

  datatype FindingRef = FindingRef(key: string, severity: Severity, message: string, evidence: EvidenceMap?)

  datatype ResultRef = ResultRef(
    moduleID: string, status: MonitorStatus, observedAt: int,
    metrics: array?<Metric>, findings: array?<FindingRef>)

  // ----- what a reference reaches, and what it stands for -----

  ghost predicate FindingWithin(f: FindingRef, reach: set<object>) {
    f.evidence != null ==> f.evidence in reach
  }

  ghost predicate FindingsWithin(findings: array?<FindingRef>, reach: set<object>)
    reads reach
  {
    findings != null ==>
      findings in reach && forall i :: 0 <= i < findings.Length ==> FindingWithin(findings[i], reach)
  }

  /** All memory that the result can see lies in reach. */
  ghost predicate Within(r: ResultRef, reach: set<object>)
    reads reach
  {
    (r.metrics != null ==> r.metrics in reach) && FindingsWithin(r.findings, reach)
  }

  ghost function FindingValue(f: FindingRef, reach: set<object>): Finding
    requires FindingWithin(f, reach)
    reads reach
  {
    Finding(f.key, f.severity, f.message, if f.evidence == null then map[] else f.evidence.entries)
  }

  ghost function FindingValues(fs: seq<FindingRef>, reach: set<object>): (values: seq<Finding>)
    requires forall i :: 0 <= i < |fs| ==> FindingWithin(fs[i], reach)
    reads reach
    ensures |values| == |fs|
    ensures forall i :: 0 <= i < |fs| ==> values[i] == FindingValue(fs[i], reach)
  {
    seq(|fs|, i requires 0 <= i < |fs| && FindingWithin(fs[i], reach) reads reach => FindingValue(fs[i], reach))
  }

  ghost function Value(r: ResultRef, reach: set<object>): MonitorResult
    requires Within(r, reach)
    reads reach
  {
    MonitorResult(r.moduleID, r.status, r.observedAt,
                  if r.metrics == null then [] else r.metrics[..],
                  if r.findings == null then [] else FindingValues(r.findings[..], reach))
  }

  ghost predicate AllWithin(rs: seq<ResultRef>, reach: set<object>)
    reads reach
  {
    forall i :: 0 <= i < |rs| ==> Within(rs[i], reach)
  }

  ghost function Values(rs: seq<ResultRef>, reach: set<object>): (values: seq<MonitorResult>)
    requires AllWithin(rs, reach)
    reads reach
    ensures |values| == |rs|
    ensures forall i :: 0 <= i < |rs| ==> values[i] == Value(rs[i], reach)
  {
    seq(|rs|, i requires 0 <= i < |rs| && Within(rs[i], reach) reads reach => Value(rs[i], reach))
  }

  /** Two results have the same value exactly when nothing that can be read off them differs:
      not the id, the status or the time, no metric, and of no finding the key, the severity, the
      message or an entry of the evidence. */
  lemma ValueTellsEverything(r: ResultRef, reach: set<object>, s: ResultRef, reach': set<object>)
    requires Within(r, reach) && Within(s, reach')
    ensures Value(r, reach) == Value(s, reach') <==>
            && r.moduleID == s.moduleID && r.status == s.status && r.observedAt == s.observedAt
            && (if r.metrics == null then [] else r.metrics[..]) == (if s.metrics == null then [] else s.metrics[..])
            && (if r.findings == null then 0 else r.findings.Length)
                 == (if s.findings == null then 0 else s.findings.Length)
            && (r.findings != null && s.findings != null ==>
                  forall i :: 0 <= i < r.findings.Length ==> SameFinding(r.findings[i], s.findings[i]))
  {
    var v, w := Value(r, reach), Value(s, reach');
    if r.findings != null && s.findings != null && r.findings.Length == s.findings.Length {
      forall i | 0 <= i < r.findings.Length
        ensures SameFinding(r.findings[i], s.findings[i]) <==> v.findings[i] == w.findings[i]
      {
        assert v.findings[i] == FindingValue(r.findings[..][i], reach);
        assert w.findings[i] == FindingValue(s.findings[..][i], reach');
      }
    }
  }

  ghost predicate SameFinding(f: FindingRef, g: FindingRef)
    reads f.evidence, g.evidence
  {
    && f.key == g.key && f.severity == g.severity && f.message == g.message
    && (if f.evidence == null then map[] else f.evidence.entries)
         == (if g.evidence == null then map[] else g.evidence.entries)
  }

  /** The value does not depend on how much more memory is looked at. */
  lemma ReachIsImmaterial(r: ResultRef, small: set<object>, large: set<object>)
    requires Within(r, small) && small <= large
    ensures Within(r, large) && Value(r, large) == Value(r, small)
  {
  }

  lemma AppendValue(rs: seq<ResultRef>, small: set<object>, r: ResultRef, large: set<object>)
    requires AllWithin(rs, small) && small <= large && Within(r, large)
    ensures AllWithin(rs + [r], large)
    ensures Values(rs + [r], large) == Values(rs, small) + [Value(r, large)]
  {
    forall i | 0 <= i < |rs| ensures Within(rs[i], large) && Value(rs[i], large) == Value(rs[i], small) {
      ReachIsImmaterial(rs[i], small, large);
    }
  }

  // ----- copying -----

  method CloneEvidence(evidence: EvidenceMap?) returns (clone: EvidenceMap?)
    ensures clone == null <==> evidence == null
    ensures clone != null ==> fresh(clone) && clone.entries == evidence.entries
  {
    if evidence == null {
      return null;
    }
    clone := new EvidenceMap();
    var keys := evidence.entries.Keys;
    while keys != {}
      invariant keys <= evidence.entries.Keys
      invariant clone.entries == map k | k in evidence.entries && k !in keys :: evidence.entries[k]
      decreases |keys|
    {
      var key :| key in keys;
      clone.entries := clone.entries[key := evidence.entries[key]];
      keys := keys - {key};
    }
  }

  method CloneFinding(finding: FindingRef, ghost reach: set<object>)
    returns (clone: FindingRef, ghost owned: set<object>)
    requires FindingWithin(finding, reach)
    ensures fresh(owned) && FindingWithin(clone, owned)
    ensures clone.evidence == null <==> finding.evidence == null
    ensures FindingValue(clone, owned) == FindingValue(finding, reach)
  {
    var evidence := CloneEvidence(finding.evidence);
    clone := finding.(evidence := evidence);
    owned := if evidence == null then {} else {evidence};
  }

  method CloneFindings(findings: array?<FindingRef>, ghost reach: set<object>)
    returns (clone: array?<FindingRef>, ghost owned: set<object>)
    requires FindingsWithin(findings, reach)
    ensures clone == null <==> findings == null
    ensures fresh(owned) && FindingsWithin(clone, owned)
    ensures clone != null ==> FindingValues(clone[..], owned) == FindingValues(findings[..], reach)
  {
    owned := {};
    if findings == null {
      return null, owned;
    }
    clone := new FindingRef[findings.Length];
    owned := {clone};
    for index := 0 to findings.Length
      invariant fresh(owned) && clone in owned && findings !in owned
      invariant forall j :: 0 <= j < index ==> FindingWithin(clone[j], owned)
      invariant forall j :: 0 <= j < index ==> FindingValue(clone[j], owned) == FindingValue(findings[j], reach)
    {
      var finding, more := CloneFinding(findings[index], reach);
      clone[index] := finding;
      owned := owned + more;
    }
  }

  method CloneMetrics(metrics: array?<Metric>) returns (clone: array?<Metric>)
    ensures clone == null <==> metrics == null
    ensures clone != null ==> fresh(clone) && clone[..] == metrics[..]
  {
    if metrics == null {
      return null;
    }
    clone := new Metric[metrics.Length](i requires 0 <= i < metrics.Length reads metrics => metrics[i]);
  }

  /** The copy says the same, keeps nil slices nil, and shares no memory with anything. */
  method CloneResult(result: ResultRef, ghost reach: set<object>) returns (clone: ResultRef, ghost owned: set<object>)
    requires Within(result, reach)
    ensures fresh(owned) && Within(clone, owned)
    ensures Value(clone, owned) == Value(result, reach)
    ensures clone.metrics == null <==> result.metrics == null
    ensures clone.findings == null <==> result.findings == null
  {
    var metrics := CloneMetrics(result.metrics);
    var findings, more := CloneFindings(result.findings, reach);
    clone := result.(metrics := metrics, findings := findings);
    owned := more + (if metrics == null then {} else {metrics});
  }

  /** One more private copy at the end of a list of private copies. */
  method AppendClone(clones: seq<ResultRef>, ghost owned: set<object>, result: ResultRef, ghost reach: set<object>)
    returns (more: seq<ResultRef>, ghost after: set<object>)
    requires AllWithin(clones, owned) && Within(result, reach)
    ensures owned <= after && fresh(after - owned) && AllWithin(more, after)
    ensures Values(more, after) == Values(clones, owned) + [Value(result, reach)]
  {
    var clone, fresher := CloneResult(result, reach);
    after := owned + fresher;
    ReachIsImmaterial(clone, fresher, after);
    AppendValue(clones, owned, clone, after);
    more := clones + [clone];
  }

  method CloneResults(results: seq<ResultRef>, ghost reach: set<object>)
    returns (clones: seq<ResultRef>, ghost owned: set<object>)
    requires AllWithin(results, reach)
    ensures fresh(owned) && AllWithin(clones, owned)
    ensures Values(clones, owned) == Values(results, reach)
  {
    ghost var values := Values(results, reach);
    clones, owned := [], {};
    for i := 0 to |results|
      invariant AllWithin(results, reach) && Values(results, reach) == values
      invariant fresh(owned) && AllWithin(clones, owned)
      invariant Values(clones, owned) == values[..i]
    {
      clones, owned := AppendClone(clones, owned, results[i], reach);
    }
  }
}
