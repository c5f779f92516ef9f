/** A scope that does not require PROVEN reaches ACTIVE from empty tables on an OPERATIONAL evaluation. */
module RegistryReach {
  import opened Prelude
  import opened Texts
  import opened GateEvidence
  import opened ActivationLaws
  import opened ModuleRegistry
  import opened RegistryHistory
  import opened RegistryEntry
  import opened RegistryCases

  function Plain(scope: Scope, artifact: string, to: Position, id: string, at: int): Advance {
    Advance("m", scope, artifact, to, NotReady, PrivateOnly, None, None, None, None, None, at, id, id)
  }

  /** Operational evidence with nothing missing. */
  function Evidence(scope: Scope): GateInput {
    GateInput(Operational, scope, 3, true, true, false, true, [], Some(SignedEvidence(true, None)),
              Some(Contract("k", true, true, None)), None, 0, "e", Some(10), [])
  }

  function Outcome3(h: Hashing, scope: Scope): GateResult { Evaluate(Evidence(scope), h.scopeHash(scope)) }

  /** Row ids of one evaluation tell its gates apart. */
  ghost predicate IdsTellGates(h: Hashing) {
    forall hash, kind, a, b, v, w, event, at :: a != b ==> h.rowId(hash, kind, a, v, event, at) != h.rowId(hash, kind, b, w, event, at)
  }

  function Activation(h: Hashing, scope: Scope, artifact: string): Advance {
    Plain(scope, artifact, Active, "d", 4).(claim := Some(Claim(Outcome3(h, scope), Some(EvidenceRef(h, Batch(h, scope))))))
  }

  function Batch(h: Hashing, scope: Scope): seq<Row> {
    var result := Outcome3(h, scope);
    if result.expiresAt.Some? then BatchOf(h, result) else []
  }

  function Steps(h: Hashing, scope: Scope, artifact: string): seq<Step> {
    [DoAdvance(Plain(scope, artifact, Implemented, "a", 0), 0, true), DoAdvance(Plain(scope, artifact, Available, "b", 1), 1, true),
     DoAdvance(Plain(scope, artifact, Paused, "c", 2), 2, true), DoRecord(Outcome3(h, scope)),
     DoAdvance(Activation(h, scope, artifact), 4, true)]
  }

  /** The trace of steps that each read the state they write. */
  function Run(h: Hashing, steps: seq<Step>): (trace: seq<Tables>)
    ensures |trace| == |steps| + 1
  {
    if steps == [] then [EMPTY]
    else
      var before := Run(h, steps[..|steps| - 1]);
      before + [Next(h, before[|before| - 1], before[|before| - 1], steps[|steps| - 1])]
  }

  lemma {:induction false} RunIsTrace(h: Hashing, steps: seq<Step>)
    requires forall k :: 0 <= k < |steps| ==> ReadIndex(steps[k], k) == k
    ensures IsTrace(h, Run(h, steps), steps)
  {
    if steps == [] {
    } else {
      var n := |steps| - 1;
      var init := steps[..n];
      assert forall k :: 0 <= k < n ==> init[k] == steps[k];
      RunIsTrace(h, init);
      RunExtends(h, Run(h, init), init, Run(h, steps), steps);
    }
  }

  lemma RunExtends(h: Hashing, before: seq<Tables>, init: seq<Step>, trace: seq<Tables>, steps: seq<Step>)
    requires IsTrace(h, before, init) && |steps| == |init| + 1 && steps[..|init|] == init
    requires ReadIndex(steps[|init|], |init|) == |init|
    requires trace == before + [Next(h, before[|init|], before[|init|], steps[|init|])]
    ensures IsTrace(h, trace, steps)
  {
    forall k | 0 <= k < |steps| ensures Follows(h, trace, steps, k) {
      if k < |init| {
        assert Follows(h, before, init, k) && init[k] == steps[k];
        FollowsLonger(h, before, init, trace, steps, k);
      }
    }
  }

  lemma FollowsLonger(h: Hashing, before: seq<Tables>, init: seq<Step>, trace: seq<Tables>, steps: seq<Step>, k: nat)
    requires |before| == |init| + 1 && |trace| == |steps| + 1 && before <= trace && |init| <= |steps|
    requires k < |init| && init[k] == steps[k] && Follows(h, before, init, k)
    ensures Follows(h, trace, steps, k)
  {
    var i := ReadIndex(steps[k], k);
    assert before[i] == trace[i] && before[k] == trace[k] && before[k + 1] == trace[k + 1];
  }

  // --- one plain step -------------------------------------------------------------------------------

  /** Only these ids are in use, nothing is contained, activated, or carries an event. */
  predicate Tame(t: Tables, ids: set<string>) {
    && t.containments == []
    && (forall i :: 0 <= i < |t.states| ==> t.states[i].id in ids && t.states[i].state != Active && t.states[i].event.None?)
    && (forall i :: 0 <= i < |t.transitions| ==> t.transitions[i].id in ids)
  }

  ghost predicate StandsAt(t: Tables, scope: Scope, position: Position) {
    var head := Head(t.states, "m", scope);
    if position == NotImplemented then head.None? else head.Some? && head.value.state == position
  }

  /** A plain advance of this scope with an id that is not in use, along a legal edge. */
  ghost predicate Movable(t: Tables, scope: Scope, adv: Advance, ids: set<string>, from: Position) {
    && Chained(t) && Tame(t, ids) && StandsAt(t, scope, from)
    && IsContentAddress(adv.artifact) && adv.rowId != "" && adv.rowId !in ids
    && adv == Plain(scope, adv.artifact, adv.to, adv.rowId, adv.at) && adv.to !in {NotImplemented, Active, Proven}
    && from in EnteredFrom(adv.to)
  }

  lemma PlainCommits(h: Hashing, t: Tables, scope: Scope, adv: Advance, ids: set<string>, from: Position)
    requires Movable(t, scope, adv, ids, from)
    ensures AdvanceState(h, t, t, adv, true).Ok?
  {
    var head := Head(t.states, "m", scope);
    if head.Some? { var i :| 0 <= i < |t.states| && t.states[i] == head.value; }
    PlainCommitsIff(h, t, t, adv, true);
  }

  /** The rows before keep everything but the pointer, and the last row is the new one. */
  predicate GrewBy(t: Tables, t': Tables, scope: Scope, to: Position, id: string) {
    && |t'.states| == |t.states| + 1 && |t'.transitions| == |t.transitions| + 1
    && (forall i :: 0 <= i < |t.states| ==> t'.states[i].(supersededBy := None) == t.states[i].(supersededBy := None))
    && t'.transitions[..|t.transitions|] == t.transitions && t'.transitions[|t.transitions|].id == id
    && t'.containments == t.containments && t'.evaluations == t.evaluations
    && var row := t'.states[|t.states|];
       InScope(row, "m", scope) && row.state == to && row.id == id
  }

  lemma PlainGrows(h: Hashing, t: Tables, scope: Scope, adv: Advance, ids: set<string>, from: Position)
    requires Movable(t, scope, adv, ids, from)
    ensures var t' := Next(h, t, t, DoAdvance(adv, 0, true));
            GrewBy(t, t', scope, adv.to, adv.rowId) && t'.states[|t.states|].event.None?
  {
    PlainCommits(h, t, scope, adv, ids, from);
    var t' := AdvanceState(h, t, t, adv, true).value;
    NextIsCommit(h, t, adv, t');
    CommitGrows(h, t, scope, adv, t');
    NoEvent(h, t, adv, ids);
  }

  lemma NextIsCommit(h: Hashing, t: Tables, adv: Advance, t': Tables)
    requires AdvanceState(h, t, t, adv, true) == Ok(t')
    ensures Next(h, t, t, DoAdvance(adv, 0, true)) == t'
  {
  }

  lemma CommitGrows(h: Hashing, t: Tables, scope: Scope, adv: Advance, t': Tables)
    requires UniqueIds(t.states) && AdvanceState(h, t, t, adv, true) == Ok(t') && adv.moduleId == "m" && adv.scope == scope
    requires adv.rowId == adv.transitionId
    ensures GrewBy(t, t', scope, adv.to, adv.rowId)
  {
    CommitLeaves(h, t, t, adv, true);
  }

  lemma NoEvent(h: Hashing, t: Tables, adv: Advance, ids: set<string>)
    requires UniqueIds(t.states) && Tame(t, ids) && AdvanceState(h, t, t, adv, true).Ok? && adv.to != Active && adv.explicitEvent.None?
    ensures |AdvanceState(h, t, t, adv, true).value.states| == |t.states| + 1
    ensures AdvanceState(h, t, t, adv, true).value.states[|t.states|].event.None?
  {
    CommitCites(h, t, t, adv, true);
    var head := Head(t.states, adv.moduleId, adv.scope);
    if head.Some? { var i :| 0 <= i < |t.states| && t.states[i] == head.value; }
  }

  lemma TameAfter(t: Tables, t': Tables, scope: Scope, to: Position, id: string, ids: set<string>)
    requires Tame(t, ids) && GrewBy(t, t', scope, to, id) && to != Active && t'.states[|t.states|].event.None?
    ensures Tame(t', ids + {id})
  {
    forall i | 0 <= i < |t'.states| ensures t'.states[i].id in ids + {id} && t'.states[i].state != Active && t'.states[i].event.None? {
      if i < |t.states| {
        assert t'.states[i].(supersededBy := None) == t.states[i].(supersededBy := None);
      }
    }
    forall i | 0 <= i < |t'.transitions| ensures t'.transitions[i].id in ids + {id} {
      if i < |t.transitions| {
        assert t'.transitions[i] == t.transitions[i];
      }
    }
  }

  lemma StandsAfter(t: Tables, t': Tables, scope: Scope, to: Position, id: string)
    requires GrewBy(t, t', scope, to, id) && to != NotImplemented && Linear(Rows(t'.states, "m", scope))
    ensures StandsAt(t', scope, to)
  {
    NewestIsHead(t'.states, "m", scope);
  }

  // --- the script -----------------------------------------------------------------------------------

  /** A trace of three plain advances, a recording and a last advance. */
  ghost predicate Scripted(h: Hashing, trace: seq<Tables>, steps: seq<Step>, scope: Scope, artifact: string, result: GateResult, adv: Advance) {
    && IsTrace(h, trace, steps) && |steps| == 5 && IsContentAddress(artifact)
    && steps[0] == DoAdvance(Plain(scope, artifact, Implemented, "a", 0), 0, true)
    && steps[1] == DoAdvance(Plain(scope, artifact, Available, "b", 1), 1, true)
    && steps[2] == DoAdvance(Plain(scope, artifact, Paused, "c", 2), 2, true)
    && steps[3] == DoRecord(result) && steps[4] == DoAdvance(adv, 4, true)
  }

  lemma Sound(h: Hashing, trace: seq<Tables>, steps: seq<Step>, scope: Scope, artifact: string, result: GateResult, adv: Advance, k: nat)
    requires Scripted(h, trace, steps, scope, artifact, result, adv) && k <= 5
    ensures Chained(trace[k]) && Linear(Rows(trace[k].states, "m", scope))
  {
    forall j | 0 <= j < 5 ensures ReadIndex(steps[j], j) == j {
      assert j == 0 || j == 1 || j == 2 || j == 3 || j == 4;
    }
    ReachableIsLawful(h, trace, steps, k);
    FreshReadsNeverFork(h, trace, steps, k, "m", scope);
  }

  /** Step `k` of the script is a plain advance: it moves the scope. */
  lemma ScriptMoves(h: Hashing, trace: seq<Tables>, steps: seq<Step>, scope: Scope, artifact: string, result: GateResult, adv: Advance,
                    k: nat, move: Advance, ids: set<string>, from: Position)
    requires Scripted(h, trace, steps, scope, artifact, result, adv) && k < 3 && steps[k] == DoAdvance(move, k, true)
    requires Movable(trace[k], scope, move, ids, from)
    ensures GrewBy(trace[k], trace[k + 1], scope, move.to, move.rowId)
    ensures Tame(trace[k + 1], ids + {move.rowId}) && StandsAt(trace[k + 1], scope, move.to)
  {
    TraceStep(h, trace, steps, k);
    PlainGrows(h, trace[k], scope, move, ids, from);
    assert Next(h, trace[k], trace[k], DoAdvance(move, 0, true)) == Next(h, trace[k], trace[k], steps[k]);
    Sound(h, trace, steps, scope, artifact, result, adv, k + 1);
    TameAfter(trace[k], trace[k + 1], scope, move.to, move.rowId, ids);
    StandsAfter(trace[k], trace[k + 1], scope, move.to, move.rowId);
  }

  lemma Letters()
    ensures "a" != "b" && "a" != "c" && "b" != "c" && "d" !in {"a", "b", "c"} && "a" != "" && "b" != "" && "c" != ""
  {
    assert "a"[0] == 'a' && "b"[0] == 'b' && "c"[0] == 'c' && "d"[0] == 'd';
  }

  lemma FirstMove(h: Hashing, trace: seq<Tables>, steps: seq<Step>, scope: Scope, artifact: string, result: GateResult, adv: Advance)
    requires Scripted(h, trace, steps, scope, artifact, result, adv)
    ensures Tame(trace[1], {"a"}) && StandsAt(trace[1], scope, Implemented) && trace[1].evaluations == []
  {
    Letters();
    Sound(h, trace, steps, scope, artifact, result, adv, 0);
    ScriptMoves(h, trace, steps, scope, artifact, result, adv, 0, Plain(scope, artifact, Implemented, "a", 0), {}, NotImplemented);
    assert {} + {"a"} == {"a"};
  }

  lemma SecondMove(h: Hashing, trace: seq<Tables>, steps: seq<Step>, scope: Scope, artifact: string, result: GateResult, adv: Advance)
    requires Scripted(h, trace, steps, scope, artifact, result, adv)
    ensures Tame(trace[2], {"a", "b"}) && StandsAt(trace[2], scope, Available) && trace[2].evaluations == []
    ensures |trace[2].states| == |trace[1].states| + 1
    ensures InScope(trace[2].states[|trace[1].states|], "m", scope) && trace[2].states[|trace[1].states|].state == Available
  {
    Letters();
    FirstMove(h, trace, steps, scope, artifact, result, adv);
    Sound(h, trace, steps, scope, artifact, result, adv, 1);
    ScriptMoves(h, trace, steps, scope, artifact, result, adv, 1, Plain(scope, artifact, Available, "b", 1), {"a"}, Implemented);
    assert {"a"} + {"b"} == {"a", "b"};
  }

  lemma ThirdMove(h: Hashing, trace: seq<Tables>, steps: seq<Step>, scope: Scope, artifact: string, result: GateResult, adv: Advance)
    requires Scripted(h, trace, steps, scope, artifact, result, adv)
    ensures Tame(trace[3], {"a", "b", "c"}) && StandsAt(trace[3], scope, Paused) && trace[3].evaluations == []
    ensures WasAvailable(trace[3], scope)
  {
    Letters();
    SecondMove(h, trace, steps, scope, artifact, result, adv);
    Sound(h, trace, steps, scope, artifact, result, adv, 2);
    ScriptMoves(h, trace, steps, scope, artifact, result, adv, 2, Plain(scope, artifact, Paused, "c", 2), {"a", "b"}, Available);
    assert {"a", "b"} + {"c"} == {"a", "b", "c"};
    var i := |trace[1].states|;
    assert trace[3].states[i].(supersededBy := None) == trace[2].states[i].(supersededBy := None);
    assert InScope(trace[3].states[i], "m", scope) && trace[3].states[i].state == Available;
  }

  predicate WasAvailable(t: Tables, scope: Scope) {
    exists i :: 0 <= i < |t.states| && InScope(t.states[i], "m", scope) && t.states[i].state == Available
  }

  // --- the evidence ---------------------------------------------------------------------------------

  lemma EvidencePasses(h: Hashing, scope: Scope)
    requires !scope.requiresProven
    ensures Outcome3(h, scope).passed && Outcome3(h, scope).expiresAt == Some(10)
  {
    var input := Evidence(scope);
    PassesIff(input, h.scopeHash(scope));
    var consumed := ConsumedExpiries(input);
    assert consumed == [None, None];
    assert consumed[..1] == [None] && consumed[..1][..0] == [];
    assert Earliest(Some(10), consumed[..1]) == Some(10);
  }

  lemma BatchIdsDiffer(h: Hashing, scope: Scope)
    requires !scope.requiresProven && IdsTellGates(h)
    ensures FreshIds([], Batch(h, scope)) && PassedBatch(Batch(h, scope), Evidence(scope), h.scopeHash(scope))
  {
    var input, hash, batch := Evidence(scope), h.scopeHash(scope), Batch(h, scope);
    EvidencePasses(h, scope);
    PassedIsBatch(h, input, hash);
    forall i, j | 0 <= i < j < |batch| ensures batch[i].id != batch[j].id {
      assert RowPassed(batch[i], i, input, hash) && RowPassed(batch[j], j, input, hash);
    }
  }

  lemma EvidenceIsRecorded(h: Hashing, scope: Scope)
    requires !scope.requiresProven && IdsTellGates(h) && NonemptyDigests(h)
    ensures Persist(h, [], Outcome3(h, scope)).Some? && Persist(h, [], Outcome3(h, scope)).value.0 == Batch(h, scope)
    ensures Backs(h, Batch(h, scope), scope, Operational, "e", EvidenceRef(h, Batch(h, scope)), 4)
  {
    var input, hash, result, batch := Evidence(scope), h.scopeHash(scope), Outcome3(h, scope), Batch(h, scope);
    EvidencePasses(h, scope);
    BatchIdsDiffer(h, scope);
    assert [] + batch == batch;
    PersistedBatch(h, [], result);
    RecordedPassAcceptedIff(h, [], input, hash, Select(batch, hash, Operational, "e"), 4);
    AcceptsIffBacked(h, batch, scope, Operational, "e", EvidenceRef(h, batch), 4);
  }

  // --- the entry ------------------------------------------------------------------------------------

  /** An advance into ACTIVE with no further expectations. */
  predicate Enters(h: Hashing, adv: Advance, scope: Scope, id: string) {
    && adv.to == Active && adv.moduleId == "m" && adv.scope == scope && IsContentAddress(adv.artifact)
    && adv.rowId == id && adv.transitionId == id && id != "" && adv.currentId.None?
    && (adv.claim.Some? ==> adv.claim.value.result.scopeHash == h.scopeHash(scope))
  }

  lemma EntryPosed(h: Hashing, t: Tables, adv: Advance, scope: Scope, id: string, ids: set<string>)
    requires Tame(t, ids) && id !in ids && StandsAt(t, scope, Paused) && Enters(h, adv, scope, id)
    ensures var head := Head(t.states, "m", scope);
            WellPosed(h, t, adv, head, true) && Edge(head, Active) && StillHead(t, head) && !Open(t, adv, h.scopeHash(scope))
  {
  }

  lemma EntryAvailable(t: Tables, adv: Advance, scope: Scope)
    requires WasAvailable(t, scope) && adv.moduleId == "m" && adv.scope == scope
    ensures EverIn(t, adv, {Available, Proven, Active})
  {
    var i :| 0 <= i < |t.states| && InScope(t.states[i], "m", scope) && t.states[i].state == Available;
    assert t.states[i].state in {Available, Proven, Active};
  }

  lemma EntryCommits(h: Hashing, t: Tables, adv: Advance, scope: Scope, id: string, ids: set<string>)
    requires Chained(t) && Tame(t, ids) && id !in ids && StandsAt(t, scope, Paused) && WasAvailable(t, scope)
    requires Enters(h, adv, scope, id) && !scope.requiresProven && ClaimHolds(h, t, adv)
    ensures AdvanceState(h, t, t, adv, true).Ok?
  {
    EntryPosed(h, t, adv, scope, id, ids);
    EntryAvailable(t, adv, scope);
    ActiveCommitsIff(h, t, t, adv, true);
  }

  /** The claim of the advance is a pass these rows back, for an event with ink. */
  ghost predicate BackedClaim(h: Hashing, adv: Advance, batch: seq<Row>, scope: Scope) {
    && adv.claim.Some? && adv.claim.value.setRef.Some? && adv.operational == NotReady && adv.distribution == PrivateOnly
    && adv.claim.value.result.passed && HasInk(adv.claim.value.result.event)
    && Backs(h, batch, scope, adv.claim.value.result.kind, adv.claim.value.result.event, adv.claim.value.setRef.value, adv.at)
  }

  lemma ClaimIsGood(h: Hashing, t: Tables, adv: Advance, scope: Scope, ids: set<string>)
    requires Tame(t, ids) && BackedClaim(h, adv, t.evaluations, scope) && adv.scope == scope
    ensures ClaimHolds(h, t, adv)
  {
  }

  lemma EntryOk(h: Hashing, t: Tables, adv: Advance, scope: Scope)
    requires Chained(t) && Tame(t, {"a", "b", "c"}) && StandsAt(t, scope, Paused) && WasAvailable(t, scope)
    requires Enters(h, adv, scope, "d") && !scope.requiresProven && BackedClaim(h, adv, t.evaluations, scope)
    ensures AdvanceState(h, t, t, adv, true).Ok?
  {
    Letters();
    ClaimIsGood(h, t, adv, scope, {"a", "b", "c"});
    EntryCommits(h, t, adv, scope, "d", {"a", "b", "c"});
  }

  lemma LastMove(h: Hashing, trace: seq<Tables>, steps: seq<Step>, scope: Scope, artifact: string, result: GateResult, adv: Advance)
    requires Scripted(h, trace, steps, scope, artifact, result, adv) && adv.moduleId == "m" && adv.scope == scope && adv.to == Active
    requires UniqueIds(trace[4].states) && AdvanceState(h, trace[4], trace[4], adv, true).Ok?
    ensures StandsAt(trace[5], scope, Active)
  {
    EntryGrows(h, trace, steps, adv, scope);
    Sound(h, trace, steps, scope, artifact, result, adv, 5);
    LastStands(trace[5], scope, Active);
  }

  lemma LastStands(t: Tables, scope: Scope, to: Position)
    requires t.states != [] && Linear(Rows(t.states, "m", scope)) && to != NotImplemented
    requires InScope(t.states[|t.states| - 1], "m", scope) && t.states[|t.states| - 1].state == to
    ensures StandsAt(t, scope, to)
  {
    NewestIsHead(t.states, "m", scope);
  }

  lemma EntryGrows(h: Hashing, trace: seq<Tables>, steps: seq<Step>, adv: Advance, scope: Scope)
    requires IsTrace(h, trace, steps) && |steps| == 5 && steps[4] == DoAdvance(adv, 4, true) && adv.moduleId == "m" && adv.scope == scope
    requires UniqueIds(trace[4].states) && AdvanceState(h, trace[4], trace[4], adv, true).Ok?
    ensures |trace[5].states| == |trace[4].states| + 1
    ensures InScope(trace[5].states[|trace[4].states|], "m", scope) && trace[5].states[|trace[4].states|].state == adv.to
  {
    TraceStep(h, trace, steps, 4);
    CommitLeaves(h, trace[4], trace[4], adv, true);
  }

  lemma FourthMove(h: Hashing, trace: seq<Tables>, steps: seq<Step>, scope: Scope, artifact: string, result: GateResult, adv: Advance, batch: seq<Row>)
    requires Scripted(h, trace, steps, scope, artifact, result, adv)
    requires Persist(h, [], result).Some? && Persist(h, [], result).value.0 == batch
    ensures Tame(trace[4], {"a", "b", "c"}) && StandsAt(trace[4], scope, Paused) && WasAvailable(trace[4], scope)
    ensures trace[4].evaluations == batch
  {
    ThirdMove(h, trace, steps, scope, artifact, result, adv);
    ReadsOwn(h, trace, steps, scope, artifact, result, adv);
    RecordMove(h, trace[3], trace[4], scope, result, batch);
  }

  lemma ReadsOwn(h: Hashing, trace: seq<Tables>, steps: seq<Step>, scope: Scope, artifact: string, result: GateResult, adv: Advance)
    requires Scripted(h, trace, steps, scope, artifact, result, adv)
    ensures trace[4] == Next(h, trace[3], trace[3], DoRecord(result))
  {
    TraceStep(h, trace, steps, 3);
  }

  lemma RecordMove(h: Hashing, t: Tables, t': Tables, scope: Scope, result: GateResult, batch: seq<Row>)
    requires Tame(t, {"a", "b", "c"}) && StandsAt(t, scope, Paused) && WasAvailable(t, scope) && t.evaluations == []
    requires Persist(h, [], result).Some? && Persist(h, [], result).value.0 == batch && t' == Next(h, t, t, DoRecord(result))
    ensures Tame(t', {"a", "b", "c"}) && StandsAt(t', scope, Paused) && WasAvailable(t', scope) && t'.evaluations == batch
  {
    RecordKeepsRows(h, t, result, batch);
    SameRows(t, t', scope);
  }

  lemma SameRows(t: Tables, t': Tables, scope: Scope)
    requires t'.states == t.states && t'.transitions == t.transitions && t'.containments == t.containments
    ensures forall ids :: Tame(t, ids) ==> Tame(t', ids)
    ensures StandsAt(t, scope, Paused) ==> StandsAt(t', scope, Paused)
    ensures WasAvailable(t, scope) ==> WasAvailable(t', scope)
  {
  }

  lemma RecordKeepsRows(h: Hashing, t: Tables, result: GateResult, batch: seq<Row>)
    requires Persist(h, t.evaluations, result).Some? && Persist(h, t.evaluations, result).value.0 == batch
    ensures Next(h, t, t, DoRecord(result)) == t.(evaluations := batch)
  {
  }

  lemma EntryFromScript(h: Hashing, trace: seq<Tables>, steps: seq<Step>, scope: Scope, artifact: string, result: GateResult, adv: Advance, batch: seq<Row>)
    requires Scripted(h, trace, steps, scope, artifact, result, adv) && !scope.requiresProven
    requires Persist(h, [], result).Some? && Persist(h, [], result).value.0 == batch
    requires Enters(h, adv, scope, "d") && BackedClaim(h, adv, batch, scope)
    ensures StandsAt(trace[5], scope, Active)
  {
    FourthMove(h, trace, steps, scope, artifact, result, adv, batch);
    Sound(h, trace, steps, scope, artifact, result, adv, 4);
    EntryOk(h, trace[4], adv, scope);
    LastMove(h, trace, steps, scope, artifact, result, adv);
  }

  lemma OutcomeFields(h: Hashing, scope: Scope)
    ensures Outcome3(h, scope).kind == Operational && Outcome3(h, scope).event == "e" && Outcome3(h, scope).scopeHash == h.scopeHash(scope)
  {
  }

  lemma GoodActivation(h: Hashing, scope: Scope, artifact: string, result: GateResult, ref: string, batch: seq<Row>)
    requires IsContentAddress(artifact) && result.passed && result.kind == Operational && result.event == "e"
    requires result.scopeHash == h.scopeHash(scope) && Backs(h, batch, scope, Operational, "e", ref, 4)
    ensures var adv := Plain(scope, artifact, Active, "d", 4).(claim := Some(Claim(result, Some(ref))));
            Enters(h, adv, scope, "d") && BackedClaim(h, adv, batch, scope)
  {
    assert !IsSpace("e"[0]);
    assert HasInk("e");
    assert |"d"| == 1;
  }

  lemma ActivationIsGood(h: Hashing, scope: Scope, artifact: string)
    requires IsContentAddress(artifact) && !scope.requiresProven && IdsTellGates(h) && NonemptyDigests(h)
    ensures Enters(h, Activation(h, scope, artifact), scope, "d") && BackedClaim(h, Activation(h, scope, artifact), Batch(h, scope), scope)
  {
    EvidencePasses(h, scope);
    EvidenceIsRecorded(h, scope);
    OutcomeFields(h, scope);
    GoodActivation(h, scope, artifact, Outcome3(h, scope), EvidenceRef(h, Batch(h, scope)), Batch(h, scope));
  }

  /** A scope that does not require PROVEN reaches ACTIVE without a PROVEN row anywhere in its history. */
  lemma ActiveWithoutProven(h: Hashing, trace: seq<Tables>, steps: seq<Step>, scope: Scope, artifact: string)
    requires Scripted(h, trace, steps, scope, artifact, Outcome3(h, scope), Activation(h, scope, artifact))
    requires !scope.requiresProven && IdsTellGates(h) && NonemptyDigests(h)
    ensures StandsAt(trace[5], scope, Active)
  {
    EvidenceIsRecorded(h, scope);
    ActivationIsGood(h, scope, artifact);
    EntryFromScript(h, trace, steps, scope, artifact, Outcome3(h, scope), Activation(h, scope, artifact), Batch(h, scope));
  }

  /** And the steps do have a trace. */
  lemma StepsRun(h: Hashing, scope: Scope, artifact: string)
    requires IsContentAddress(artifact)
    ensures Scripted(h, Run(h, Steps(h, scope, artifact)), Steps(h, scope, artifact), scope, artifact, Outcome3(h, scope), Activation(h, scope, artifact))
  {
    RunIsTrace(h, Steps(h, scope, artifact));
  }
}
