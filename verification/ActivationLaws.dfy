/**
 What an activation kind demands, said in terms of the evidence itself: the gates of each kind by
 name, the facts a pass rests on, and the rows an accepted batch holds.
 */
module ActivationLaws {
  import opened Prelude
  import opened ShadowSafe
  import opened GateEvidence

  // --- gates by kind ----------------------------------------------------------------------------

  const EVERY_KIND: set<GateKind> := {ImplementedPresent, AvailableEvidence, VerifiedGateEvidence, CapacityContract, NoOpenContainment}

  const STATISTICAL: set<GateKind> := {StatisticalEvidenceScope, NegativeControls, ClusteredIntervals, CalibrationMaturity}

  function GatesFor(kind: ActivationKind, requiresProven: bool): set<GateKind> {
    EVERY_KIND + (if requiresProven then {ProvenPresent} else {})
    + match kind
      case Operational => {}
      case Opportunity => STATISTICAL
      case Workspace => STATISTICAL + {DistributionEvidence}
      case Public => STATISTICAL + {DistributionEvidence}
  }

  lemma RequiredByKind(gate: GateKind, kind: ActivationKind, scope: Scope)
    ensures Required(gate, kind, scope) <==> gate in GatesFor(kind, scope.requiresProven)
  {
  }

  // --- what a pass rests on -----------------------------------------------------------------------

  /** Record `i` is the only one registered for this scope hash. */
  predicate OnlyRecord(registered: seq<Statistical>, hash: string, i: nat) {
    && i < |registered| && registered[i].scopeHash == hash
    && forall j :: 0 <= j < |registered| && j != i ==> registered[j].scopeHash != hash
  }

  /** The last record of the control passed without unexplained lift. */
  predicate ControlHeld(controls: seq<Control>, control: ControlKind) {
    exists i :: 0 <= i < |controls| && LastOf(controls, control, i) && controls[i].passed && !controls[i].lift
  }

  predicate LastOf(controls: seq<Control>, control: ControlKind, i: nat)
    requires i < |controls|
  {
    controls[i].control == control && forall j :: i < j < |controls| ==> controls[j].control != control
  }

  predicate SoundRecord(s: Statistical, now: int) {
    && s.expiresAt.Some? && s.expiresAt.value > now
    && ControlHeld(s.controls, LabelPermutation) && ControlHeld(s.controls, FeatureTimeShift)
    && ControlHeld(s.controls, SyntheticNullFeature) && ControlHeld(s.controls, DelayedProvider)
    && s.clusteredMethod && s.clusterDefined && s.differsFromNaive
    && (s.rankingEnabled ==> s.mature && !s.drift)
  }

  ghost predicate StatisticallySound(input: GateInput, hash: string) {
    exists i: nat :: OnlyRecord(input.statistical, hash, i) && SoundRecord(input.statistical[i], input.now)
  }

  predicate DistributionSound(input: GateInput, audience: ActivationKind) {
    && input.distribution.Some? && input.distribution.value.authorizedFor == Some(audience)
    && input.distribution.value.blockedPaths == 0
    && forall i :: 0 <= i < |input.distribution.value.checks| ==> input.distribution.value.checks[i]
  }

  predicate Ahead(expiry: Option<int>, now: int) { expiry.Some? ==> expiry.value > now }

  /** Every fact the evaluation of this kind rests on is in order. */
  ghost predicate FactsInOrder(input: GateInput, hash: string) {
    && input.implemented && input.available && input.availableComplete
    && (input.scope.requiresProven ==> input.proven)
    && input.signed.Some? && input.signed.value.valid && Ahead(input.signed.value.expiresAt, input.now)
    && input.contract.Some? && input.contract.value.lawful && input.contract.value.activatable
    && Ahead(input.contract.value.expiresAt, input.now)
    && input.openContainments == 0
    && input.expiresAt.Some? && input.expiresAt.value > input.now
    && match input.kind
       case Operational => true
       case Opportunity => StatisticallySound(input, hash) && RecordsAhead(input)
       case Workspace => StatisticallySound(input, hash) && RecordsAhead(input) && DistributionSound(input, Workspace)
       case Public => StatisticallySound(input, hash) && RecordsAhead(input) && DistributionSound(input, Public)
  }

  /** No registered record that carries an expiry has run out, of whatever scope it is. */
  predicate RecordsAhead(input: GateInput) {
    forall i :: 0 <= i < |input.statistical| ==> Ahead(input.statistical[i].expiresAt, input.now)
  }

  lemma {:induction false} MatchingNone(registered: seq<Statistical>, hash: string)
    ensures Matching(registered, hash) == [] <==> forall i :: 0 <= i < |registered| ==> registered[i].scopeHash != hash
  {
    if registered != [] {
      MatchingNone(registered[1..], hash);
      assert forall i :: 1 <= i < |registered| ==> registered[i] == registered[1..][i - 1];
    }
  }

  /** One record matches exactly when it is the only one of its scope. */
  lemma {:induction false} MatchingOne(registered: seq<Statistical>, hash: string, s: Statistical)
    ensures Matching(registered, hash) == [s] <==> exists i: nat :: OnlyRecord(registered, hash, i) && registered[i] == s
  {
    if registered != [] {
      var rest := registered[1..];
      assert forall i :: 1 <= i < |registered| ==> registered[i] == rest[i - 1];
      if registered[0].scopeHash == hash {
        MatchingNone(rest, hash);
        assert Matching(registered, hash) == [registered[0]] + Matching(rest, hash);
        if Matching(registered, hash) == [s] {
          assert ([registered[0]] + Matching(rest, hash))[0] == s && |Matching(rest, hash)| == 0;
          assert OnlyRecord(registered, hash, 0);
        }
      } else {
        MatchingOne(rest, hash, s);
        if i: nat :| OnlyRecord(rest, hash, i) && rest[i] == s {
          assert OnlyRecord(registered, hash, i + 1);
        }
        if i: nat :| OnlyRecord(registered, hash, i) && registered[i] == s {
          assert OnlyRecord(rest, hash, i - 1);
        }
      }
    }
  }

  lemma {:induction false} ControlHeldIff(controls: seq<Control>, control: ControlKind)
    ensures ControlPasses(controls, control) <==> ControlHeld(controls, control)
    ensures LastControl(controls, control).None? <==> forall i :: 0 <= i < |controls| ==> controls[i].control != control
  {
    if controls != [] {
      var init, n := controls[..|controls| - 1], |controls| - 1;
      ControlHeldIff(init, control);
      assert forall i :: 0 <= i < n ==> init[i] == controls[i];
      if controls[n].control == control {
        assert LastOf(controls, control, n);
      } else {
        if i :| 0 <= i < n && LastOf(init, control, i) && init[i].passed && !init[i].lift {
          assert LastOf(controls, control, i);
        }
        if i :| 0 <= i < |controls| && LastOf(controls, control, i) && controls[i].passed && !controls[i].lift {
          assert LastOf(init, control, i);
        }
      }
    }
  }

  lemma StatisticalIff(input: GateInput, hash: string)
    ensures (forall gate :: gate in STATISTICAL ==> Condition(gate, input, hash)) <==> StatisticallySound(input, hash)
  {
    var selected := Matching(input.statistical, hash);
    if |selected| == 1 {
      assert selected == [selected[0]];
      MatchingOne(input.statistical, hash, selected[0]);
      RecordIff(input, hash, selected[0]);
      var i: nat :| OnlyRecord(input.statistical, hash, i) && input.statistical[i] == selected[0];
      OnlyOneRecord(input, hash, i);
    } else {
      assert !Condition(StatisticalEvidenceScope, input, hash);
      if i: nat :| OnlyRecord(input.statistical, hash, i) && SoundRecord(input.statistical[i], input.now) {
        MatchingOne(input.statistical, hash, input.statistical[i]);
      }
    }
  }

  lemma OnlyOneRecord(input: GateInput, hash: string, i: nat)
    requires OnlyRecord(input.statistical, hash, i)
    ensures StatisticallySound(input, hash) <==> SoundRecord(input.statistical[i], input.now)
  {
    if j: nat :| OnlyRecord(input.statistical, hash, j) && SoundRecord(input.statistical[j], input.now) {
      assert j == i;
    }
  }

  lemma RecordIff(input: GateInput, hash: string, s: Statistical)
    requires Matching(input.statistical, hash) == [s]
    ensures (forall gate :: gate in STATISTICAL ==> Condition(gate, input, hash)) <==> SoundRecord(s, input.now)
  {
    ControlHeldIff(s.controls, LabelPermutation);
    ControlHeldIff(s.controls, FeatureTimeShift);
    ControlHeldIff(s.controls, SyntheticNullFeature);
    ControlHeldIff(s.controls, DelayedProvider);
    assert (Condition(StatisticalEvidenceScope, input, hash) && Condition(NegativeControls, input, hash)
            && Condition(ClusteredIntervals, input, hash) && Condition(CalibrationMaturity, input, hash))
      <==> SoundRecord(s, input.now);
  }

  lemma ConditionsIff(input: GateInput, hash: string)
    ensures (forall gate :: gate in GatesFor(input.kind, input.scope.requiresProven) ==> Condition(gate, input, hash)) <==>
            && (forall gate :: gate in EVERY_KIND ==> Condition(gate, input, hash))
            && (input.scope.requiresProven ==> Condition(ProvenPresent, input, hash))
            && (input.kind != Operational ==> StatisticallySound(input, hash))
            && (input.kind == Workspace || input.kind == Public ==> Condition(DistributionEvidence, input, hash))
  {
    StatisticalIff(input, hash);
    var gates := GatesFor(input.kind, input.scope.requiresProven);
    assert EVERY_KIND <= gates;
    assert input.scope.requiresProven ==> ProvenPresent in gates;
    assert input.kind != Operational ==> STATISTICAL <= gates;
    assert input.kind == Workspace || input.kind == Public ==> DistributionEvidence in gates;
  }

  lemma EveryKindIff(input: GateInput, hash: string)
    ensures (forall gate :: gate in EVERY_KIND ==> Condition(gate, input, hash)) <==>
            && input.implemented && input.available && input.availableComplete
            && input.signed.Some? && input.signed.value.valid
            && input.contract.Some? && input.contract.value.lawful && input.contract.value.activatable
            && Ahead(input.contract.value.expiresAt, input.now) && input.openContainments == 0
  {
    if forall gate :: gate in EVERY_KIND ==> Condition(gate, input, hash) {
      assert Condition(ImplementedPresent, input, hash) && Condition(AvailableEvidence, input, hash);
      assert Condition(VerifiedGateEvidence, input, hash) && Condition(CapacityContract, input, hash);
      assert Condition(NoOpenContainment, input, hash);
    }
  }

  lemma ExpiriesIff(input: GateInput)
    requires input.contract.Some? && input.signed.Some?
    ensures (forall i :: 0 <= i < |ConsumedExpiries(input)| && ConsumedExpiries(input)[i].Some? ==> ConsumedExpiries(input)[i].value > input.now)
       <==> && Ahead(input.contract.value.expiresAt, input.now) && Ahead(input.signed.value.expiresAt, input.now)
            && (input.kind != Operational ==> RecordsAhead(input))
  {
    var es := ConsumedExpiries(input);
    assert es[0] == input.contract.value.expiresAt && es[1] == input.signed.value.expiresAt;
    if input.kind != Operational {
      assert |es| == 2 + |input.statistical|;
      assert forall i :: 0 <= i < |input.statistical| ==> es[2 + i] == input.statistical[i].expiresAt;
      assert forall i :: 2 <= i < |es| ==> es[i] == input.statistical[i - 2].expiresAt;
    }
  }

  /** An evaluation passes if and only if every fact its kind rests on is in order. */
  lemma PassesIff(input: GateInput, hash: string)
    ensures Evaluate(input, hash).passed <==> FactsInOrder(input, hash)
  {
    PassIff(input, hash);
    RequiredIff(input, hash);
    EveryKindIff(input, hash);
    if input.contract.Some? && input.signed.Some? {
      ExpiriesIff(input);
    }
  }

  lemma RequiredIff(input: GateInput, hash: string)
    ensures (forall gate :: Required(gate, input.kind, input.scope) ==> Condition(gate, input, hash)) <==>
            && (forall gate :: gate in EVERY_KIND ==> Condition(gate, input, hash))
            && (input.scope.requiresProven ==> input.proven)
            && (input.kind != Operational ==> StatisticallySound(input, hash))
            && (input.kind == Workspace || input.kind == Public ==> DistributionSound(input, input.kind))
  {
    forall gate ensures Required(gate, input.kind, input.scope) <==> gate in GatesFor(input.kind, input.scope.requiresProven) {
      RequiredByKind(gate, input.kind, input.scope);
    }
    ConditionsIff(input, hash);
  }

  // --- what an accepted batch holds ---------------------------------------------------------------

  /** A live row: PASS exactly on a gate its kind demands, NOT_APPLICABLE on every other. */
  predicate LiveRow(row: Row, kind: ActivationKind, requiresProven: bool, at: int) {
    && row.expiresAt > at
    && (if row.gate in GatesFor(kind, requiresProven) then row.verdict == Pass && row.failing.None? else row.verdict == NotApplicable)
  }

  /** These rows back an entry of the kind under this reference at this instant. */
  ghost predicate RowsBack(h: Hashing, selected: seq<Row>, scope: Scope, kind: ActivationKind, ref: string, at: int) {
    && ref != "" && selected != []
    && (forall i :: 0 <= i < |selected| ==> selected[i].verdict != Refuse)
    && var batch := AtInstant(selected, Latest(selected));
       && (forall gate :: Once(batch, gate))
       && (forall i :: 0 <= i < |batch| ==> LiveRow(batch[i], kind, scope.requiresProven, at))
       && EvidenceRef(h, batch) == ref
  }

  /** The rows recorded for a scope hash, kind and event do. */
  ghost predicate Backs(h: Hashing, evaluations: seq<Row>, scope: Scope, kind: ActivationKind, event: string, ref: string, at: int) {
    RowsBack(h, Select(evaluations, h.scopeHash(scope), kind, event), scope, kind, ref, at)
  }

  lemma CompleteIffLive(batch: seq<Row>, kind: ActivationKind, scope: Scope, at: int)
    ensures Complete(batch, kind, scope, at) <==>
            && (forall gate :: Once(batch, gate))
            && (forall i :: 0 <= i < |batch| ==> LiveRow(batch[i], kind, scope.requiresProven, at))
  {
    forall i | 0 <= i < |batch| ensures Exact(batch[i], kind, scope, at) <==> LiveRow(batch[i], kind, scope.requiresProven, at) {
      RequiredByKind(batch[i].gate, kind, scope);
    }
  }

  /** The persisted-evidence guard accepts exactly the rows that back the entry. */
  lemma AcceptsIffRowsBack(h: Hashing, selected: seq<Row>, scope: Scope, kind: ActivationKind, ref: string, at: int)
    ensures Guard(h, selected, kind, scope, ref, at).Ok? <==> RowsBack(h, selected, scope, kind, ref, at)
  {
    if selected != [] {
      var batch := AtInstant(selected, Latest(selected));
      CompleteIffLive(batch, kind, scope, at);
      GuardAcceptsIff(h, selected, kind, scope, ref, at);
      assert NeverRefused(selected) <==> forall i :: 0 <= i < |selected| ==> selected[i].verdict != Refuse;
    }
  }

  lemma AcceptsIffBacked(h: Hashing, evaluations: seq<Row>, scope: Scope, kind: ActivationKind, event: string, ref: string, at: int)
    ensures Guard(h, Select(evaluations, h.scopeHash(scope), kind, event), kind, scope, ref, at).Ok?
       <==> Backs(h, evaluations, scope, kind, event, ref, at)
  {
    AcceptsIffRowsBack(h, Select(evaluations, h.scopeHash(scope), kind, event), scope, kind, ref, at);
  }

  /** What is in force behind an accepted batch, gate by gate. */
  lemma BackedGates(h: Hashing, evaluations: seq<Row>, scope: Scope, kind: ActivationKind, event: string, ref: string, at: int, gate: GateKind)
    requires Backs(h, evaluations, scope, kind, event, ref, at)
    ensures exists row :: row in evaluations && Matches(row, h.scopeHash(scope), kind, event) && row.gate == gate && row.expiresAt > at
                       && (row.verdict == Pass <==> gate in GatesFor(kind, scope.requiresProven))
  {
    var selected := Select(evaluations, h.scopeHash(scope), kind, event);
    var batch := AtInstant(selected, Latest(selected));
    assert Once(batch, gate);
    var i :| 0 <= i < |batch| && batch[i].gate == gate;
    assert batch[i] in selected && batch[i] in evaluations && LiveRow(batch[i], kind, scope.requiresProven, at);
  }

  // --- what is put on record ------------------------------------------------------------------------

  /** A result is recorded exactly when it holds an evaluation, is not over when it is made, and brings new ids only. */
  lemma RecordedIff(h: Hashing, rows: seq<Row>, result: GateResult)
    ensures Persist(h, rows, result).Some? <==>
            && |result.evaluations| > 0 && result.expiresAt.Some? && result.evaluatedAt < result.expiresAt.value
            && forall i :: 0 <= i < |result.evaluations| ==> NewId(h, rows, result, i)
  {
    if result.expiresAt.Some? {
      var batch := BatchOf(h, result);
      assert forall i :: 0 <= i < |batch| ==> batch[i].id == IdOf(h, result, i);
      FreshIff(h, rows, result);
    }
  }

  function IdOf(h: Hashing, result: GateResult, i: nat): string
    requires i < |result.evaluations|
  {
    h.rowId(result.scopeHash, result.kind, result.evaluations[i].gate, result.evaluations[i].verdict, result.event, result.evaluatedAt)
  }

  /** The id of the `i`-th evaluation is on no row and on no earlier evaluation. */
  predicate NewId(h: Hashing, rows: seq<Row>, result: GateResult, i: nat)
    requires i < |result.evaluations|
  {
    && (forall j :: 0 <= j < |rows| ==> rows[j].id != IdOf(h, result, i))
    && (forall j :: 0 <= j < i ==> IdOf(h, result, j) != IdOf(h, result, i))
  }

  lemma FreshIff(h: Hashing, rows: seq<Row>, result: GateResult)
    requires result.expiresAt.Some?
    ensures FreshIds(rows, BatchOf(h, result)) <==> forall i :: 0 <= i < |result.evaluations| ==> NewId(h, rows, result, i)
  {
    var batch := BatchOf(h, result);
    assert forall i :: 0 <= i < |batch| ==> batch[i].id == IdOf(h, result, i);
    if forall i :: 0 <= i < |result.evaluations| ==> NewId(h, rows, result, i) {
      forall i, j | 0 <= i < |rows| && 0 <= j < |batch| ensures rows[i].id != batch[j].id { assert NewId(h, rows, result, j); }
      forall i, j | 0 <= i < j < |batch| ensures batch[i].id != batch[j].id { assert NewId(h, rows, result, j); }
    }
  }

  /** An evaluation can be recorded exactly when its derived expiry lies ahead of it and its row ids are new. */
  lemma EvaluationRecordedIff(h: Hashing, rows: seq<Row>, input: GateInput, hash: string)
    ensures Persist(h, rows, Evaluate(input, hash)).Some? <==>
            && var result := Evaluate(input, hash);
               && result.expiresAt.Some? && input.now < result.expiresAt.value
               && forall i :: 0 <= i < |result.evaluations| ==> NewId(h, rows, result, i)
  {
    RecordedIff(h, rows, Evaluate(input, hash));
    EvaluationsShape(input, hash, GATE_COUNT);
  }

  /** Each gate looked at leaves one row, in gate order, that says what was evaluated, when, on what, and until when. */
  lemma RecordedRow(h: Hashing, rows: seq<Row>, input: GateInput, hash: string, i: nat)
    requires Persist(h, rows, Evaluate(input, hash)).Some? && i < |Evaluate(input, hash).evaluations|
    ensures var result, table := Evaluate(input, hash), Persist(h, rows, Evaluate(input, hash)).value.0;
            && table[..|rows|] == rows && |table| == |rows| + |result.evaluations| <= |rows| + GATE_COUNT
            && result.expiresAt.Some?
            && var gate, verdict := GateAt(i), result.evaluations[i].verdict;
               table[|rows| + i]
               == Row(h.rowId(hash, input.kind, gate, verdict, input.event, input.now), hash, gate, verdict,
                      if verdict == Refuse then Some(gate) else None, input.event,
                      match input.contract { case Some(contract) => contract.id case None => "" },
                      input.refs, input.now, result.expiresAt.value, input.kind)
  {
    EvaluationsShape(input, hash, GATE_COUNT);
    RecordedAt(h, rows, Evaluate(input, hash), i);
  }

  lemma RecordedAt(h: Hashing, rows: seq<Row>, result: GateResult, i: nat)
    requires Persist(h, rows, result).Some? && i < |result.evaluations|
    ensures var table := Persist(h, rows, result).value.0;
            && table == rows + BatchOf(h, result) && table[..|rows|] == rows
            && |table| == |rows| + |result.evaluations| && table[|rows| + i] == BatchOf(h, result)[i]
  {
  }

  /** The reference is the digest of the rows in gate order, first gate first. */
  lemma ReferenceIsCanonical(h: Hashing, rows: seq<Row>, ordered: seq<Row>)
    requires multiset(rows) == multiset(ordered)
    requires forall i, j :: 0 <= i < j < |ordered| ==> OrderIndex(ordered[i].gate) < OrderIndex(ordered[j].gate)
    ensures EvidenceRef(h, rows) == h.digest(ordered)
  {
    GateAfterIsOrder();
    SortIsStable(rows, GateAfter);
    SortedIsUnique(ordered, Sort(rows, GateAfter), GateAfter);
  }
}
