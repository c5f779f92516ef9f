/**
 Activation-gate evaluation, its persisted evidence, and the guard that re-derives it.

 Hashing is a parameter: scope hashes, row ids and evidence references are arbitrary functions.
 Instants are milliseconds; a text that does not parse as a date is `None`.
 */
module GateEvidence {
  import opened Prelude
  import opened ShadowSafe

  datatype GateKind =
    | ImplementedPresent | AvailableEvidence | ProvenPresent | StatisticalEvidenceScope | NegativeControls
    | ClusteredIntervals | CalibrationMaturity | VerifiedGateEvidence | CapacityContract
    | DistributionEvidence | NoOpenContainment

  const GATE_COUNT: nat := 11

  /** `ACTIVATION_GATE_ORDER`, by position. */
  function GateAt(i: nat): GateKind
    requires i < GATE_COUNT
  {
    if i == 0 then ImplementedPresent else if i == 1 then AvailableEvidence else if i == 2 then ProvenPresent
    else if i == 3 then StatisticalEvidenceScope else if i == 4 then NegativeControls else if i == 5 then ClusteredIntervals
    else if i == 6 then CalibrationMaturity else if i == 7 then VerifiedGateEvidence else if i == 8 then CapacityContract
    else if i == 9 then DistributionEvidence else NoOpenContainment
  }

  function OrderIndex(gate: GateKind): nat {
    match gate
    case ImplementedPresent => 0
    case AvailableEvidence => 1
    case ProvenPresent => 2
    case StatisticalEvidenceScope => 3
    case NegativeControls => 4
    case ClusteredIntervals => 5
    case CalibrationMaturity => 6
    case VerifiedGateEvidence => 7
    case CapacityContract => 8
    case DistributionEvidence => 9
    case NoOpenContainment => 10
  }

  lemma OrderShape()
    ensures forall gate :: OrderIndex(gate) < GATE_COUNT && GateAt(OrderIndex(gate)) == gate
    ensures forall i :: 0 <= i < GATE_COUNT ==> OrderIndex(GateAt(i)) == i
  {
  }

  datatype ActivationKind = Operational | Opportunity | Workspace | Public

  datatype Scope = Scope(profile: string, policy: string, regime: string, execution: string, delay: string,
                         population: string, requiresProven: bool)

  /** `requiredGatesForActivation`, as a membership test. */
  predicate Required(gate: GateKind, kind: ActivationKind, scope: Scope) {
    match gate
    case ImplementedPresent | AvailableEvidence | VerifiedGateEvidence | CapacityContract | NoOpenContainment => true
    case ProvenPresent => scope.requiresProven
    case StatisticalEvidenceScope | NegativeControls | ClusteredIntervals | CalibrationMaturity => kind != Operational
    case DistributionEvidence => kind == Workspace || kind == Public
  }

  // --- evaluation -----------------------------------------------------------------------------

  datatype ControlKind = LabelPermutation | FeatureTimeShift | SyntheticNullFeature | DelayedProvider

  datatype Control = Control(control: ControlKind, passed: bool, lift: bool)

  datatype Statistical = Statistical(scopeHash: string, expiresAt: Option<int>, controls: seq<Control>,
                                     clusteredMethod: bool, clusterDefined: bool, differsFromNaive: bool,
                                     rankingEnabled: bool, mature: bool, drift: bool)

  datatype SignedEvidence = SignedEvidence(valid: bool, expiresAt: Option<int>)

  datatype Contract = Contract(id: string, lawful: bool, activatable: bool, expiresAt: Option<int>)

  datatype Distribution = Distribution(authorizedFor: Option<ActivationKind>, blockedPaths: nat, checks: seq<bool>)

  datatype GateInput = GateInput(kind: ActivationKind, scope: Scope, now: int,
                                 implemented: bool, available: bool, proven: bool, availableComplete: bool,
                                 statistical: seq<Statistical>, signed: Option<SignedEvidence>,
                                 contract: Option<Contract>, distribution: Option<Distribution>,
                                 openContainments: nat, event: string, expiresAt: Option<int>, refs: seq<string>)

  /** The registered evidence of the exact scope, when there is exactly one. */
  function Matching(registered: seq<Statistical>, hash: string): seq<Statistical> {
    if registered == [] then []
    else (if registered[0].scopeHash == hash then [registered[0]] else []) + Matching(registered[1..], hash)
  }

  /** The last record of a control wins. */
  function LastControl(controls: seq<Control>, control: ControlKind): Option<Control> {
    if controls == [] then None
    else if controls[|controls| - 1].control == control then Some(controls[|controls| - 1])
    else LastControl(controls[..|controls| - 1], control)
  }

  predicate ControlPasses(controls: seq<Control>, control: ControlKind) {
    var record := LastControl(controls, control);
    record.Some? && record.value.passed && !record.value.lift
  }

  /** `evaluateCondition` for a required gate: true is PASS, false is REFUSE. */
  predicate Condition(gate: GateKind, input: GateInput, hash: string) {
    var selected := Matching(input.statistical, hash);
    match gate
    case ImplementedPresent => input.implemented
    case AvailableEvidence => input.available && input.availableComplete
    case ProvenPresent => input.scope.requiresProven ==> input.proven
    case StatisticalEvidenceScope =>
      |selected| == 1 && selected[0].expiresAt.Some? && selected[0].expiresAt.value > input.now
    case NegativeControls =>
      && |selected| == 1
      && ControlPasses(selected[0].controls, LabelPermutation) && ControlPasses(selected[0].controls, FeatureTimeShift)
      && ControlPasses(selected[0].controls, SyntheticNullFeature) && ControlPasses(selected[0].controls, DelayedProvider)
    case ClusteredIntervals =>
      |selected| == 1 && selected[0].clusteredMethod && selected[0].clusterDefined && selected[0].differsFromNaive
    case CalibrationMaturity =>
      |selected| == 1 && (selected[0].rankingEnabled ==> selected[0].mature && !selected[0].drift)
    case VerifiedGateEvidence => input.signed.Some? && input.signed.value.valid
    case CapacityContract =>
      && input.contract.Some? && input.contract.value.lawful && input.contract.value.activatable
      && (input.contract.value.expiresAt.Some? ==> input.contract.value.expiresAt.value > input.now)
    case DistributionEvidence =>
      (input.kind == Workspace || input.kind == Public) ==>
        && input.distribution.Some? && input.distribution.value.authorizedFor == Some(input.kind)
        && input.distribution.value.blockedPaths == 0
        && forall i :: 0 <= i < |input.distribution.value.checks| ==> input.distribution.value.checks[i]
    case NoOpenContainment => input.openContainments == 0
  }

  datatype Verdict = Pass | Refuse | NotApplicable

  datatype Evaluation = Evaluation(gate: GateKind, verdict: Verdict, failing: Option<GateKind>)

  function EvaluationOf(gate: GateKind, input: GateInput, hash: string): Evaluation {
    if !Required(gate, input.kind, input.scope) then Evaluation(gate, NotApplicable, None)
    else if Condition(gate, input, hash) then Evaluation(gate, Pass, None)
    else Evaluation(gate, Refuse, Some(gate))
  }

  /** Every expiry the evaluation consumes, in the order it is read. */
  function ConsumedExpiries(input: GateInput): seq<Option<int>> {
    (if input.contract.Some? then [input.contract.value.expiresAt] else [])
    + (if input.signed.Some? then [input.signed.value.expiresAt] else [])
    + (if input.kind == Operational then []
       else seq(|input.statistical|, i requires 0 <= i < |input.statistical| => input.statistical[i].expiresAt))
  }

  /** The earliest parseable expiry; an unparseable requested expiry stays unparseable. */
  function Earliest(requested: Option<int>, consumed: seq<Option<int>>): Option<int> {
    if consumed == [] then requested
    else
      var so := Earliest(requested, consumed[..|consumed| - 1]);
      var next := consumed[|consumed| - 1];
      if next.Some? && so.Some? && next.value < so.value then next else so
  }

  function DerivedExpiry(input: GateInput): Option<int> {
    Earliest(input.expiresAt, ConsumedExpiries(input))
  }

  datatype GateResult = GateResult(passed: bool, evaluations: seq<Evaluation>, scopeHash: string, kind: ActivationKind,
                                   event: string, contractRef: string, evaluatedAt: int, expiresAt: Option<int>,
                                   refs: seq<string>)

  /** Evaluations of the first `n` gates, stopping at the first refusal. */
  function Evaluations(input: GateInput, hash: string, n: nat): (es: seq<Evaluation>)
    requires n <= GATE_COUNT
    ensures |es| <= n
  {
    if n == 0 then []
    else
      var es := Evaluations(input, hash, n - 1);
      if es != [] && es[|es| - 1].verdict == Refuse then es else es + [EvaluationOf(GateAt(n - 1), input, hash)]
  }

  predicate EndsInRefusal(es: seq<Evaluation>) {
    es != [] && es[|es| - 1].verdict == Refuse
  }

  function Evaluate(input: GateInput, hash: string): GateResult {
    var es := Evaluations(input, hash, GATE_COUNT);
    var expiry := DerivedExpiry(input);
    GateResult(!EndsInRefusal(es) && expiry.Some? && expiry.value > input.now, es, hash, input.kind, input.event,
               if input.contract.Some? then input.contract.value.id else "", input.now, expiry, input.refs)
  }

  /** One evaluation per gate in canonical order; only the last may refuse. */
  predicate InOrder(es: seq<Evaluation>, input: GateInput, hash: string, n: nat)
    requires n <= GATE_COUNT
  {
    && |es| <= n
    && (forall i :: 0 <= i < |es| ==> es[i] == EvaluationOf(GateAt(i), input, hash))
    && (forall i :: 0 <= i < |es| - 1 ==> es[i].verdict != Refuse)
    && (!EndsInRefusal(es) ==> |es| == n)
  }

  lemma {:induction false} EvaluationsShape(input: GateInput, hash: string, n: nat)
    requires n <= GATE_COUNT
    ensures InOrder(Evaluations(input, hash, n), input, hash, n)
  {
    if n > 0 {
      EvaluationsShape(input, hash, n - 1);
      var before := Evaluations(input, hash, n - 1);
      if !EndsInRefusal(before) {
        OneMore(before, input, hash, n - 1);
      }
    }
  }

  lemma OneMore(es: seq<Evaluation>, input: GateInput, hash: string, n: nat)
    requires n < GATE_COUNT && InOrder(es, input, hash, n) && !EndsInRefusal(es)
    ensures InOrder(es + [EvaluationOf(GateAt(n), input, hash)], input, hash, n + 1)
  {
  }

  lemma {:induction false} EarliestBounds(requested: Option<int>, consumed: seq<Option<int>>)
    ensures Earliest(requested, consumed).Some? <==> requested.Some?
    ensures requested.Some? ==> Earliest(requested, consumed).value <= requested.value
    ensures requested.Some? ==>
              forall i :: 0 <= i < |consumed| && consumed[i].Some? ==> Earliest(requested, consumed).value <= consumed[i].value
  {
    if consumed != [] {
      EarliestBounds(requested, consumed[..|consumed| - 1]);
    }
  }

  /** A gate result passes exactly when every required condition holds and nothing consumed has run out. */
  lemma PassIff(input: GateInput, hash: string)
    ensures Evaluate(input, hash).passed
       <==> && (forall gate :: Required(gate, input.kind, input.scope) ==> Condition(gate, input, hash))
            && input.expiresAt.Some? && input.expiresAt.value > input.now
            && (forall i :: 0 <= i < |ConsumedExpiries(input)| && ConsumedExpiries(input)[i].Some? ==>
                  ConsumedExpiries(input)[i].value > input.now)
  {
    EvaluationsShape(input, hash, GATE_COUNT);
    OrderShape();
    EarliestBounds(input.expiresAt, ConsumedExpiries(input));
    EarliestAttained(input.expiresAt, ConsumedExpiries(input));
    var es := Evaluations(input, hash, GATE_COUNT);
    if !EndsInRefusal(es) {
      forall gate | Required(gate, input.kind, input.scope) ensures Condition(gate, input, hash) {
        assert es[OrderIndex(gate)].verdict != Refuse;
      }
    } else {
      var gate := es[|es| - 1].gate;
      assert es[|es| - 1] == EvaluationOf(GateAt(|es| - 1), input, hash);
      assert Required(gate, input.kind, input.scope) && !Condition(gate, input, hash);
    }
  }

  lemma {:induction false} EarliestAttained(requested: Option<int>, consumed: seq<Option<int>>)
    ensures Earliest(requested, consumed) == requested
         || exists i :: 0 <= i < |consumed| && Earliest(requested, consumed) == consumed[i]
  {
    if consumed != [] {
      EarliestAttained(requested, consumed[..|consumed| - 1]);
    }
  }

  // --- persistence ----------------------------------------------------------------------------

  datatype Row = Row(id: string, scopeHash: string, gate: GateKind, verdict: Verdict, failing: Option<GateKind>,
                     event: string, contractRef: string, refs: seq<string>, evaluatedAt: int, expiresAt: int,
                     kind: ActivationKind)

  /** The content-address functions of the registry. */
  datatype Hashing = Hashing(scopeHash: Scope -> string,
                             rowId: (string, ActivationKind, GateKind, Verdict, string, int) -> string,
                             digest: seq<Row> -> string)

  function GateAfter(p: Row, c: Row): bool { OrderIndex(p.gate) > OrderIndex(c.gate) }

  lemma GateAfterIsOrder()
    ensures IsOrder(GateAfter)
  {
  }

  /** The evidence reference: rows in canonical gate order, hashed. */
  function EvidenceRef(h: Hashing, rows: seq<Row>): string {
    h.digest(Sort(rows, GateAfter))
  }

  predicate Matches(row: Row, hash: string, kind: ActivationKind, event: string) {
    row.scopeHash == hash && row.kind == kind && row.event == event
  }

  function Select(rows: seq<Row>, hash: string, kind: ActivationKind, event: string): (r: seq<Row>)
    ensures forall row :: row in r <==> row in rows && Matches(row, hash, kind, event)
  {
    if rows == [] then []
    else
      var last := rows[|rows| - 1];
      Select(rows[..|rows| - 1], hash, kind, event) + if Matches(last, hash, kind, event) then [last] else []
  }

  function AtInstant(rows: seq<Row>, at: int): (r: seq<Row>)
    ensures forall row :: row in r <==> row in rows && row.evaluatedAt == at
  {
    if rows == [] then []
    else AtInstant(rows[..|rows| - 1], at) + if rows[|rows| - 1].evaluatedAt == at then [rows[|rows| - 1]] else []
  }

  function BatchOf(h: Hashing, result: GateResult): (rows: seq<Row>)
    requires result.expiresAt.Some?
    ensures |rows| == |result.evaluations|
  {
    seq(|result.evaluations|, i requires 0 <= i < |result.evaluations| =>
      var e := result.evaluations[i];
      Row(h.rowId(result.scopeHash, result.kind, e.gate, e.verdict, result.event, result.evaluatedAt), result.scopeHash,
          e.gate, e.verdict, e.failing, result.event, result.contractRef, result.refs, result.evaluatedAt,
          result.expiresAt.value, result.kind))
  }

  predicate FreshIds(rows: seq<Row>, batch: seq<Row>) {
    && (forall i, j :: 0 <= i < |rows| && 0 <= j < |batch| ==> rows[i].id != batch[j].id)
    && (forall i, j :: 0 <= i < j < |batch| ==> batch[i].id != batch[j].id)
  }

  /** `persistEvaluations`: all rows or none; returns the table and the minted reference. */
  function Persist(h: Hashing, rows: seq<Row>, result: GateResult): Option<(seq<Row>, string)> {
    if result.evaluations == [] || result.expiresAt.None? || result.expiresAt.value <= result.evaluatedAt then None
    else
      var batch := BatchOf(h, result);
      if !FreshIds(rows, batch) then None
      else
        var rows' := rows + batch;
        Some((rows', EvidenceRef(h, AtInstant(Select(rows', result.scopeHash, result.kind, result.event), result.evaluatedAt))))
  }

  // --- the persisted-evidence guard -----------------------------------------------------------

  datatype EvidenceRefusal = RefMissing | SetEmpty | NotPass | KindMismatch | Stale | Incomplete | RefMismatch

  function Count(rows: seq<Row>, gate: GateKind): nat {
    if rows == [] then 0
    else Count(rows[..|rows| - 1], gate) + if rows[|rows| - 1].gate == gate then 1 else 0
  }

  function Latest(rows: seq<Row>): (at: int)
    requires rows != []
    ensures forall i :: 0 <= i < |rows| ==> rows[i].evaluatedAt <= at
    ensures exists i :: 0 <= i < |rows| && rows[i].evaluatedAt == at
  {
    if |rows| == 1 then rows[0].evaluatedAt
    else
      var rest := Latest(rows[..|rows| - 1]);
      assert forall i :: 0 <= i < |rows| - 1 ==> rows[i] == rows[..|rows| - 1][i];
      if rows[|rows| - 1].evaluatedAt > rest then rows[|rows| - 1].evaluatedAt else rest
  }

  /** The checks on one row of the latest batch, in the order they are made. */
  function RowRefusal(row: Row, kind: ActivationKind, scope: Scope, at: int): Option<EvidenceRefusal> {
    if Required(row.gate, kind, scope) && (row.verdict != Pass || row.failing.Some?) then Some(NotPass)
    else if !Required(row.gate, kind, scope) && row.verdict != NotApplicable && !(row.verdict == Refuse && row.failing.Some?) then
      Some(KindMismatch)
    else if row.verdict == Refuse then Some(NotPass)
    else if row.expiresAt <= at then Some(Stale)
    else None
  }

  function FirstRowRefusal(batch: seq<Row>, kind: ActivationKind, scope: Scope, at: int): Option<EvidenceRefusal> {
    if batch == [] then None
    else
      var here := RowRefusal(batch[0], kind, scope, at);
      if here.Some? then here else FirstRowRefusal(batch[1..], kind, scope, at)
  }

  /** `requirePersistedActivationEvidence`, over the rows the database selected, in any order. */
  function Guard(h: Hashing, selected: seq<Row>, kind: ActivationKind, scope: Scope, ref: string, at: int)
    : Result<seq<Row>, EvidenceRefusal>
  {
    if ref == "" then Err(RefMissing)
    else if selected == [] then Err(SetEmpty)
    else if exists i :: 0 <= i < |selected| && selected[i].verdict == Refuse then Err(NotPass)
    else CheckBatch(h, AtInstant(selected, Latest(selected)), kind, scope, ref, at)
  }

  /** Every canonical gate has exactly one row. */
  predicate CoversOnce(batch: seq<Row>) {
    forall gate :: Count(batch, gate) == 1
  }

  function CheckBatch(h: Hashing, batch: seq<Row>, kind: ActivationKind, scope: Scope, ref: string, at: int)
    : Result<seq<Row>, EvidenceRefusal>
  {
    var refusal := FirstRowRefusal(batch, kind, scope, at);
    if refusal.Some? then Err(refusal.value)
    else if !CoversOnce(batch) then Err(Incomplete)
    else if EvidenceRef(h, batch) != ref then Err(RefMismatch)
    else Ok(batch)
  }

  predicate Once(batch: seq<Row>, gate: GateKind) {
    && (exists i :: 0 <= i < |batch| && batch[i].gate == gate)
    && (forall i, j :: 0 <= i < |batch| && 0 <= j < |batch| && batch[i].gate == gate && batch[j].gate == gate ==> i == j)
  }

  /** An exact evidence set: one live row per gate, PASS on the required gates and nowhere else. */
  ghost predicate Complete(batch: seq<Row>, kind: ActivationKind, scope: Scope, at: int) {
    && (forall gate :: Once(batch, gate))
    && (forall i :: 0 <= i < |batch| ==> Exact(batch[i], kind, scope, at))
  }

  predicate Exact(row: Row, kind: ActivationKind, scope: Scope, at: int) {
    && row.verdict == (if Required(row.gate, kind, scope) then Pass else NotApplicable)
    && (row.verdict == Pass ==> row.failing.None?)
    && row.expiresAt > at
  }

  lemma {:induction false} CountPositive(rows: seq<Row>, i: nat)
    requires i < |rows|
    ensures Count(rows, rows[i].gate) >= 1
  {
    if i < |rows| - 1 { CountPositive(rows[..|rows| - 1], i); }
  }

  lemma {:induction false} CountTwice(rows: seq<Row>, i: nat, j: nat)
    requires i < j < |rows| && rows[i].gate == rows[j].gate
    ensures Count(rows, rows[i].gate) >= 2
  {
    if j < |rows| - 1 { CountTwice(rows[..|rows| - 1], i, j); } else { CountPositive(rows[..|rows| - 1], i); }
  }

  lemma {:induction false} CountAbsent(rows: seq<Row>, gate: GateKind)
    ensures Count(rows, gate) > 0 ==> exists i :: 0 <= i < |rows| && rows[i].gate == gate
    ensures Count(rows, gate) > 1 ==> exists i, j :: 0 <= i < j < |rows| && rows[i].gate == gate && rows[j].gate == gate
  {
    if rows != [] {
      var init := rows[..|rows| - 1];
      CountAbsent(init, gate);
      if Count(init, gate) > 0 {
        var i :| 0 <= i < |init| && init[i].gate == gate;
        assert rows[i].gate == gate;
        if Count(init, gate) > 1 {
          var i', j' :| 0 <= i' < j' < |init| && init[i'].gate == gate && init[j'].gate == gate;
          assert rows[i'].gate == gate && rows[j'].gate == gate;
        }
      }
    }
  }

  lemma {:induction false} NoRowRefusalIff(batch: seq<Row>, kind: ActivationKind, scope: Scope, at: int)
    requires forall i :: 0 <= i < |batch| ==> batch[i].verdict != Refuse
    ensures FirstRowRefusal(batch, kind, scope, at).None?
       <==> forall i :: 0 <= i < |batch| ==> Exact(batch[i], kind, scope, at)
  {
    if batch != [] {
      NoRowRefusalIff(batch[1..], kind, scope, at);
      assert RowRefusal(batch[0], kind, scope, at).None? <==> Exact(batch[0], kind, scope, at);
      assert forall i :: 0 <= i < |batch| - 1 ==> batch[1..][i] == batch[i + 1];
    }
  }

  lemma CheckBatchIff(h: Hashing, batch: seq<Row>, kind: ActivationKind, scope: Scope, ref: string, at: int)
    requires forall i :: 0 <= i < |batch| ==> batch[i].verdict != Refuse
    ensures CheckBatch(h, batch, kind, scope, ref, at).Ok?
       <==> Complete(batch, kind, scope, at) && EvidenceRef(h, batch) == ref
    ensures CheckBatch(h, batch, kind, scope, ref, at).Ok? ==> CheckBatch(h, batch, kind, scope, ref, at).value == batch
  {
    NoRowRefusalIff(batch, kind, scope, at);
    if CoversOnce(batch) {
      forall gate ensures Once(batch, gate) {
        CountOnce(batch, gate);
      }
    } else {
      var gate :| Count(batch, gate) != 1;
      CountOnce(batch, gate);
    }
  }

  ghost predicate NeverRefused(selected: seq<Row>) {
    forall i :: 0 <= i < |selected| ==> selected[i].verdict != Refuse
  }

  /**
   The guard accepts exactly when nothing was ever refused for the triple, the latest batch is an
   exact live evidence set, and the reference re-derives from it.
   */
  lemma GuardAcceptsIff(h: Hashing, selected: seq<Row>, kind: ActivationKind, scope: Scope, ref: string, at: int)
    requires selected != []
    ensures var batch := AtInstant(selected, Latest(selected));
            && (Guard(h, selected, kind, scope, ref, at).Ok?
                <==> ref != "" && NeverRefused(selected) && Complete(batch, kind, scope, at) && EvidenceRef(h, batch) == ref)
            && (Guard(h, selected, kind, scope, ref, at).Ok? ==> Guard(h, selected, kind, scope, ref, at).value == batch)
  {
    var batch := AtInstant(selected, Latest(selected));
    if NeverRefused(selected) {
      forall i | 0 <= i < |batch| ensures batch[i].verdict != Refuse {
        assert batch[i] in selected;
      }
      CheckBatchIff(h, batch, kind, scope, ref, at);
    }
  }

  lemma CountOnce(rows: seq<Row>, gate: GateKind)
    ensures Count(rows, gate) == 1 <==> Once(rows, gate)
  {
    CountAbsent(rows, gate);
    if i :| 0 <= i < |rows| && rows[i].gate == gate {
      CountPositive(rows, i);
      if j :| 0 <= j < |rows| && rows[j].gate == gate && i != j {
        CountTwice(rows, if i < j then i else j, if i < j then j else i);
      }
    }
  }

  // --- the guard does not depend on row order --------------------------------------------------

  lemma {:induction false} AtInstantMultiset(rows: seq<Row>, at: int, row: Row)
    ensures multiset(AtInstant(rows, at))[row] == if row.evaluatedAt == at then multiset(rows)[row] else 0
  {
    if rows != [] {
      AtInstantMultiset(rows[..|rows| - 1], at, row);
      assert rows == rows[..|rows| - 1] + [rows[|rows| - 1]];
    }
  }

  lemma SameElements(a: seq<Row>, b: seq<Row>)
    requires multiset(a) == multiset(b)
    ensures |a| == |b|
    ensures forall row :: row in a <==> row in b
  {
    assert |multiset(a)| == |multiset(b)|;
    forall row ensures row in a <==> row in b {
      assert row in a <==> row in multiset(a);
      assert row in b <==> row in multiset(b);
    }
  }

  lemma LatestOfPermutation(a: seq<Row>, b: seq<Row>)
    requires multiset(a) == multiset(b) && a != [] && b != []
    ensures Latest(a) == Latest(b)
  {
    SameElements(a, b);
    var i :| 0 <= i < |a| && a[i].evaluatedAt == Latest(a);
    var j :| 0 <= j < |b| && b[j].evaluatedAt == Latest(b);
    assert a[i] in b && b[j] in a;
  }

  lemma {:induction false} CountOfPermutation(a: seq<Row>, b: seq<Row>, gate: GateKind)
    requires multiset(a) == multiset(b)
    ensures Count(a, gate) == Count(b, gate)
  {
    SameElements(a, b);
    if a != [] {
      var last := a[|a| - 1];
      assert last in b;
      var j :| 0 <= j < |b| && b[j] == last;
      var rest := b[..j] + b[j + 1..];
      RemoveLast(a, gate);
      RemoveOne(b, j, gate);
      assert multiset(a[..|a| - 1]) == multiset(rest);
      CountOfPermutation(a[..|a| - 1], rest, gate);
    }
  }

  lemma RemoveLast(rows: seq<Row>, gate: GateKind)
    requires rows != []
    ensures multiset(rows[..|rows| - 1]) == multiset(rows) - multiset{rows[|rows| - 1]}
  {
    assert rows == rows[..|rows| - 1] + [rows[|rows| - 1]];
  }

  lemma RemoveOne(rows: seq<Row>, j: nat, gate: GateKind)
    requires j < |rows|
    ensures multiset(rows[..j] + rows[j + 1..]) == multiset(rows) - multiset{rows[j]}
    ensures Count(rows, gate) == Count(rows[..j] + rows[j + 1..], gate) + if rows[j].gate == gate then 1 else 0
  {
    var left, right := rows[..j], rows[j + 1..];
    assert rows == left + [rows[j]] + right;
    CountConcat(left, right, gate);
    CountConcat(left, [rows[j]], gate);
    CountConcat(left + [rows[j]], right, gate);
    assert Count([rows[j]], gate) == Count([], gate) + if rows[j].gate == gate then 1 else 0;
  }

  lemma {:induction false} CountConcat(a: seq<Row>, b: seq<Row>, gate: GateKind)
    ensures Count(a + b, gate) == Count(a, gate) + Count(b, gate)
    decreases |b|
  {
    if b == [] {
      assert a + b == a;
    } else {
      assert (a + b)[..|a + b| - 1] == a + b[..|b| - 1];
      CountConcat(a, b[..|b| - 1], gate);
    }
  }

  lemma CompleteOfPermutation(a: seq<Row>, b: seq<Row>, kind: ActivationKind, scope: Scope, at: int)
    requires multiset(a) == multiset(b) && Complete(a, kind, scope, at)
    ensures Complete(b, kind, scope, at)
  {
    SameElements(a, b);
    forall gate ensures Once(b, gate) {
      CountOnce(a, gate);
      CountOnce(b, gate);
      CountOfPermutation(a, b, gate);
    }
    forall i | 0 <= i < |b| ensures Exact(b[i], kind, scope, at) {
      assert b[i] in a;
    }
  }

  /** One row per gate: the evidence reference is the same for every row order. */
  lemma ReferenceForgetsOrder(h: Hashing, a: seq<Row>, b: seq<Row>)
    requires multiset(a) == multiset(b) && forall gate :: Once(a, gate)
    ensures EvidenceRef(h, a) == EvidenceRef(h, b)
  {
    GateAfterIsOrder();
    forall i, j | 0 <= i < |a| && 0 <= j < |a| && !GateAfter(a[i], a[j]) && !GateAfter(a[j], a[i]) ensures a[i] == a[j] {
      OrderShape();
      assert Once(a, a[i].gate);
    }
    SortForgetsOrder(a, b, GateAfter);
  }

  /** Whatever order the database returns the rows in, the guard accepts or refuses alike. */
  lemma GuardForgetsOrder(h: Hashing, a: seq<Row>, b: seq<Row>, kind: ActivationKind, scope: Scope, ref: string, at: int)
    requires multiset(a) == multiset(b)
    ensures Guard(h, a, kind, scope, ref, at).Ok? ==> Guard(h, b, kind, scope, ref, at).Ok?
  {
    SameElements(a, b);
    if a != [] {
      GuardAcceptsIff(h, a, kind, scope, ref, at);
      GuardAcceptsIff(h, b, kind, scope, ref, at);
      LatestOfPermutation(a, b);
      var batchA, batchB := AtInstant(a, Latest(a)), AtInstant(b, Latest(b));
      assert multiset(batchA) == multiset(batchB) by {
        forall row ensures multiset(batchA)[row] == multiset(batchB)[row] {
          AtInstantMultiset(a, Latest(a), row);
          AtInstantMultiset(b, Latest(b), row);
        }
      }
      if Guard(h, a, kind, scope, ref, at).Ok? {
        CompleteOfPermutation(batchA, batchB, kind, scope, at);
        ReferenceForgetsOrder(h, batchA, batchB);
        forall i | 0 <= i < |b| ensures b[i].verdict != Refuse { assert b[i] in a; }
      }
    }
  }

  // --- recorded results -----------------------------------------------------------------------

  lemma {:induction false} SelectAppends(rows: seq<Row>, batch: seq<Row>, hash: string, kind: ActivationKind, event: string)
    requires forall i :: 0 <= i < |batch| ==> Matches(batch[i], hash, kind, event)
    ensures Select(rows + batch, hash, kind, event) == Select(rows, hash, kind, event) + batch
    decreases |batch|
  {
    if batch == [] {
      assert rows + batch == rows;
    } else {
      var init, last := batch[..|batch| - 1], batch[|batch| - 1];
      assert batch == init + [last];
      assert rows + batch == (rows + init) + [last];
      forall i | 0 <= i < |init| ensures Matches(init[i], hash, kind, event) { assert init[i] == batch[i]; }
      SelectAppends(rows, init, hash, kind, event);
      SelectStep(rows + init, last, hash, kind, event);
      Regroup(Select(rows, hash, kind, event), init, last);
    }
  }

  lemma Regroup(a: seq<Row>, b: seq<Row>, row: Row)
    ensures a + b + [row] == a + (b + [row])
  {
  }

  lemma SelectStep(rows: seq<Row>, row: Row, hash: string, kind: ActivationKind, event: string)
    ensures Select(rows + [row], hash, kind, event)
         == Select(rows, hash, kind, event) + if Matches(row, hash, kind, event) then [row] else []
  {
    assert (rows + [row])[..|rows|] == rows;
  }

  lemma {:induction false} AtInstantAll(rows: seq<Row>, at: int)
    requires forall i :: 0 <= i < |rows| ==> rows[i].evaluatedAt == at
    ensures AtInstant(rows, at) == rows
  {
    if rows != [] {
      var init, last := rows[..|rows| - 1], rows[|rows| - 1];
      forall i | 0 <= i < |init| ensures init[i].evaluatedAt == at { assert init[i] == rows[i]; }
      AtInstantAll(init, at);
      calc {
        AtInstant(rows, at);
        AtInstant(init, at) + [last];
        init + [last];
        rows;
      }
    }
  }

  lemma PassedRow(h: Hashing, input: GateInput, hash: string, i: nat)
    requires Evaluate(input, hash).passed && i < GATE_COUNT
    ensures var batch := BatchOf(h, Evaluate(input, hash));
            |batch| == GATE_COUNT && RowPassed(batch[i], i, input, hash)
  {
    OrderShape();
    var es := Evaluations(input, hash, GATE_COUNT);
    EvaluationsShape(input, hash, GATE_COUNT);
    assert es[i] == EvaluationOf(GateAt(i), input, hash);
    assert es[i].verdict != Refuse;
  }

  /** The row a pass records for the gate at position `i`. */
  predicate RowPassed(row: Row, i: nat, input: GateInput, hash: string) {
    && OrderIndex(row.gate) == i && row.failing.None?
    && row.verdict == (if Required(row.gate, input.kind, input.scope) then Pass else NotApplicable)
    && row.evaluatedAt == input.now && Some(row.expiresAt) == DerivedExpiry(input)
    && Matches(row, hash, input.kind, input.event)
  }

  predicate PassedBatch(batch: seq<Row>, input: GateInput, hash: string) {
    |batch| == GATE_COUNT && forall i :: 0 <= i < GATE_COUNT ==> RowPassed(batch[i], i, input, hash)
  }

  lemma OneRowPerGate(batch: seq<Row>, gate: GateKind)
    requires |batch| == GATE_COUNT && forall i :: 0 <= i < GATE_COUNT ==> OrderIndex(batch[i].gate) == i
    ensures Once(batch, gate)
  {
    OrderShape();
    var row := batch[OrderIndex(gate)];
    assert OrderIndex(row.gate) == OrderIndex(gate);
    assert row.gate == GateAt(OrderIndex(row.gate)) == gate;
  }

  lemma LatestOfOneInstant(rows: seq<Row>, at: int)
    requires rows != [] && forall i :: 0 <= i < |rows| ==> rows[i].evaluatedAt == at
    ensures Latest(rows) == at && AtInstant(rows, at) == rows
  {
    AtInstantAll(rows, at);
  }

  lemma PassedBatchAcceptedIff(h: Hashing, batch: seq<Row>, input: GateInput, hash: string, at: int)
    requires DerivedExpiry(input).Some? && PassedBatch(batch, input, hash) && EvidenceRef(h, batch) != ""
    ensures Guard(h, batch, input.kind, input.scope, EvidenceRef(h, batch), at).Ok? <==> at < DerivedExpiry(input).value
  {
    LatestOfOneInstant(batch, input.now);
    GuardAcceptsIff(h, batch, input.kind, input.scope, EvidenceRef(h, batch), at);
    assert Complete(batch, input.kind, input.scope, at) <==> at < DerivedExpiry(input).value by {
      CompleteIffLive(batch, input, hash, at);
    }
  }

  lemma CompleteIffLive(batch: seq<Row>, input: GateInput, hash: string, at: int)
    requires DerivedExpiry(input).Some? && PassedBatch(batch, input, hash)
    ensures Complete(batch, input.kind, input.scope, at) <==> at < DerivedExpiry(input).value
    ensures NeverRefused(batch)
  {
    forall gate ensures Once(batch, gate) {
      OneRowPerGate(batch, gate);
    }
    assert RowPassed(batch[0], 0, input, hash);
    assert Exact(batch[0], input.kind, input.scope, at) <==> at < DerivedExpiry(input).value;
  }

  /** The content addresses of persisted sets are never the empty text. */
  ghost predicate NonemptyDigests(h: Hashing) {
    forall rows :: h.digest(rows) != ""
  }

  /**
   A recorded pass is accepted at every instant before its derived expiry and at none after, when
   its batch is all that was recorded for its scope, kind and event; rows may come in any order.
   */
  lemma RecordedPassAcceptedIff(h: Hashing, rows: seq<Row>, input: GateInput, hash: string, selected: seq<Row>, at: int)
    requires NonemptyDigests(h) && Evaluate(input, hash).passed
    requires Select(rows, hash, input.kind, input.event) == []
    requires Persist(h, rows, Evaluate(input, hash)).Some?
    requires multiset(selected) == multiset(Select(Persist(h, rows, Evaluate(input, hash)).value.0, hash, input.kind, input.event))
    ensures var ref := Persist(h, rows, Evaluate(input, hash)).value.1;
            Guard(h, selected, input.kind, input.scope, ref, at).Ok? <==> at < DerivedExpiry(input).value
  {
    var result := Evaluate(input, hash);
    var batch := BatchOf(h, result);
    PassedIsBatch(h, input, hash);
    PersistedBatch(h, rows, result);
    PassedBatchAcceptedIff(h, batch, input, hash, at);
    GuardForgetsOrder(h, batch, selected, input.kind, input.scope, EvidenceRef(h, batch), at);
    GuardForgetsOrder(h, selected, batch, input.kind, input.scope, EvidenceRef(h, batch), at);
  }

  lemma PassedIsBatch(h: Hashing, input: GateInput, hash: string)
    requires Evaluate(input, hash).passed
    ensures PassedBatch(BatchOf(h, Evaluate(input, hash)), input, hash)
  {
    PassedRow(h, input, hash, 0);
    forall i | 0 <= i < GATE_COUNT ensures RowPassed(BatchOf(h, Evaluate(input, hash))[i], i, input, hash) {
      PassedRow(h, input, hash, i);
    }
  }

  /** Recording into an empty triple leaves exactly the batch, under its own reference. */
  lemma PersistedBatch(h: Hashing, rows: seq<Row>, result: GateResult)
    requires Persist(h, rows, result).Some? && Select(rows, result.scopeHash, result.kind, result.event) == []
    ensures var batch := BatchOf(h, result);
            && Select(Persist(h, rows, result).value.0, result.scopeHash, result.kind, result.event) == batch
            && Persist(h, rows, result).value.1 == EvidenceRef(h, batch)
  {
    var batch := BatchOf(h, result);
    assert forall i :: 0 <= i < |batch| ==> Matches(batch[i], result.scopeHash, result.kind, result.event) && batch[i].evaluatedAt == result.evaluatedAt;
    SelectAppends(rows, batch, result.scopeHash, result.kind, result.event);
    assert [] + batch == batch;
    AtInstantAll(batch, result.evaluatedAt);
  }

  /** A refusal that could be recorded at all leaves a REFUSE row behind. */
  lemma RecordedRefusalLeavesRow(h: Hashing, rows: seq<Row>, input: GateInput, hash: string)
    requires !Evaluate(input, hash).passed && Persist(h, rows, Evaluate(input, hash)).Some?
    ensures exists row :: row in Persist(h, rows, Evaluate(input, hash)).value.0
              && Matches(row, hash, input.kind, input.event) && row.verdict == Refuse
  {
    RefusedEnds(h, rows, input, hash);
    RecordedLast(h, rows, Evaluate(input, hash));
  }

  lemma RefusedEnds(h: Hashing, rows: seq<Row>, input: GateInput, hash: string)
    requires !Evaluate(input, hash).passed && Persist(h, rows, Evaluate(input, hash)).Some?
    ensures EndsInRefusal(Evaluate(input, hash).evaluations)
  {
  }

  lemma RecordedLast(h: Hashing, rows: seq<Row>, result: GateResult)
    requires Persist(h, rows, result).Some? && EndsInRefusal(result.evaluations)
    ensures exists row :: row in Persist(h, rows, result).value.0
              && Matches(row, result.scopeHash, result.kind, result.event) && row.verdict == Refuse
  {
    var batch := BatchOf(h, result);
    var last := batch[|batch| - 1];
    assert last.verdict == Refuse && Matches(last, result.scopeHash, result.kind, result.event);
    assert (rows + batch)[|rows| + |batch| - 1] == last;
    assert last in Persist(h, rows, result).value.0;
  }

  /** Once a REFUSE row exists for a triple, no reference and no later table is ever accepted for it. */
  lemma RefusalIsPermanent(h: Hashing, rows: seq<Row>, later: seq<Row>, row: Row, hash: string, kind: ActivationKind,
                           event: string, scope: Scope, ref: string, at: int)
    requires row in rows && Matches(row, hash, kind, event) && row.verdict == Refuse
    requires rows <= later
    ensures Guard(h, Select(later, hash, kind, event), kind, scope, ref, at).Err?
  {
    var selected := Select(later, hash, kind, event);
    assert row in later;
    assert row in selected;
    GuardAcceptsIff(h, selected, kind, scope, ref, at);
  }

  /** A pass never outlives anything it consumed. */
  lemma PassNeverOutlivesEvidence(input: GateInput, hash: string)
    requires Evaluate(input, hash).passed
    ensures Evaluate(input, hash).expiresAt.Some?
    ensures input.expiresAt.Some? && Evaluate(input, hash).expiresAt.value <= input.expiresAt.value
    ensures forall i :: 0 <= i < |ConsumedExpiries(input)| && ConsumedExpiries(input)[i].Some? ==>
              Evaluate(input, hash).expiresAt.value <= ConsumedExpiries(input)[i].value
  {
    EarliestBounds(input.expiresAt, ConsumedExpiries(input));
  }

  // --- the loops ------------------------------------------------------------------------------

  method EarliestExpiry(requested: Option<int>, consumed: seq<Option<int>>) returns (expiry: Option<int>)
    ensures expiry == Earliest(requested, consumed)
  {
    expiry := requested;
    for i := 0 to |consumed|
      invariant expiry == Earliest(requested, consumed[..i])
    {
      assert consumed[..i + 1][..i] == consumed[..i];
      if consumed[i].Some? && expiry.Some? && consumed[i].value < expiry.value {
        expiry := consumed[i];
      }
    }
    assert consumed[..|consumed|] == consumed;
  }

  method EvaluateInOrder(input: GateInput, hash: string) returns (evaluations: seq<Evaluation>)
    ensures evaluations == Evaluations(input, hash, GATE_COUNT)
  {
    evaluations := [];
    var refused := false;
    for i := 0 to GATE_COUNT
      invariant evaluations == Evaluations(input, hash, i)
      invariant refused == EndsInRefusal(evaluations)
    {
      if !refused {
        evaluations := evaluations + [EvaluationOf(GateAt(i), input, hash)];
        refused := evaluations[|evaluations| - 1].verdict == Refuse;
      }
    }
  }

  method EvaluateActivationGate(input: GateInput, hash: string) returns (result: GateResult)
    ensures result == Evaluate(input, hash)
  {
    var expiry := EarliestExpiry(input.expiresAt, ConsumedExpiries(input));
    var contractRef := if input.contract.Some? then input.contract.value.id else "";
    var evaluations := EvaluateInOrder(input, hash);
    var passed := !EndsInRefusal(evaluations) && expiry.Some? && expiry.value > input.now;
    result := GateResult(passed, evaluations, hash, input.kind, input.event, contractRef, input.now, expiry, input.refs);
  }

  method LatestInstant(rows: seq<Row>) returns (latest: int)
    requires rows != []
    ensures latest == Latest(rows)
  {
    latest := rows[0].evaluatedAt;
    for i := 1 to |rows|
      invariant latest == Latest(rows[..i])
    {
      assert rows[..i + 1][..i] == rows[..i];
      if rows[i].evaluatedAt > latest { latest := rows[i].evaluatedAt; }
    }
    assert rows[..|rows|] == rows;
  }

  method RowsAt(rows: seq<Row>, at: int) returns (batch: seq<Row>)
    ensures batch == AtInstant(rows, at)
  {
    batch := [];
    for i := 0 to |rows|
      invariant batch == AtInstant(rows[..i], at)
    {
      AtInstantStep(rows[..i], rows[i], at);
      assert rows[..i + 1] == rows[..i] + [rows[i]];
      if rows[i].evaluatedAt == at { batch := batch + [rows[i]]; }
    }
    assert rows[..|rows|] == rows;
  }

  lemma AtInstantStep(rows: seq<Row>, row: Row, at: int)
    ensures AtInstant(rows + [row], at) == AtInstant(rows, at) + if row.evaluatedAt == at then [row] else []
  {
    assert (rows + [row])[..|rows|] == rows;
  }

  method LatestBatch(rows: seq<Row>) returns (batch: seq<Row>)
    requires rows != []
    ensures batch == AtInstant(rows, Latest(rows))
  {
    var latest := LatestInstant(rows);
    batch := RowsAt(rows, latest);
  }

  method CountGate(batch: seq<Row>, gate: GateKind) returns (occurrences: nat)
    ensures occurrences == Count(batch, gate)
  {
    occurrences := 0;
    for i := 0 to |batch|
      invariant occurrences == Count(batch[..i], gate)
    {
      assert batch[..i + 1][..i] == batch[..i];
      if batch[i].gate == gate { occurrences := occurrences + 1; }
    }
    assert batch[..|batch|] == batch;
  }

  /** `requirePersistedActivationEvidence`, walking rows and gates by index. */
  method RequirePersistedEvidence(h: Hashing, selected: seq<Row>, kind: ActivationKind, scope: Scope, ref: string, at: int)
    returns (outcome: Result<seq<Row>, EvidenceRefusal>)
    ensures outcome == Guard(h, selected, kind, scope, ref, at)
  {
    if ref == "" { return Err(RefMissing); }
    if selected == [] { return Err(SetEmpty); }
    for i := 0 to |selected|
      invariant forall k :: 0 <= k < i ==> selected[k].verdict != Refuse
    {
      if selected[i].verdict == Refuse { return Err(NotPass); }
    }
    var batch := LatestBatch(selected);
    outcome := CheckLatestBatch(h, batch, kind, scope, ref, at);
  }

  method CheckRows(batch: seq<Row>, kind: ActivationKind, scope: Scope, at: int) returns (refusal: Option<EvidenceRefusal>)
    ensures refusal == FirstRowRefusal(batch, kind, scope, at)
  {
    for i := 0 to |batch|
      invariant FirstRowRefusal(batch, kind, scope, at) == FirstRowRefusal(batch[i..], kind, scope, at)
    {
      refusal := RowRefusal(batch[i], kind, scope, at);
      assert batch[i..][1..] == batch[i + 1..];
      if refusal.Some? { return; }
    }
    refusal := None;
  }

  method CoversEveryGate(batch: seq<Row>) returns (covers: bool)
    ensures covers <==> CoversOnce(batch)
  {
    OrderShape();
    for i := 0 to GATE_COUNT
      invariant forall k :: 0 <= k < i ==> Count(batch, GateAt(k)) == 1
    {
      var occurrences := CountGate(batch, GateAt(i));
      if occurrences != 1 { return false; }
    }
    forall gate ensures Count(batch, gate) == 1 {
      assert GateAt(OrderIndex(gate)) == gate;
    }
    covers := true;
  }

  method CheckLatestBatch(h: Hashing, batch: seq<Row>, kind: ActivationKind, scope: Scope, ref: string, at: int)
    returns (outcome: Result<seq<Row>, EvidenceRefusal>)
    ensures outcome == CheckBatch(h, batch, kind, scope, ref, at)
  {
    var refusal := CheckRows(batch, kind, scope, at);
    if refusal.Some? { return Err(refusal.value); }
    var covers := CoversEveryGate(batch);
    if !covers { return Err(Incomplete); }
    var ordered := InsertionSort(batch, GateAfter);
    var derived := h.digest(ordered[..]);
    assert derived == EvidenceRef(h, batch);
    outcome := if derived != ref then Err(RefMismatch) else Ok(batch);
  }
}
