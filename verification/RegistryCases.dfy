/** Traces from empty tables in which the chain forks and containment does not do what its name promises. */
module RegistryCases {
  import opened Prelude
  import opened Texts
  import opened GateEvidence
  import opened ModuleRegistry
  import opened RegistryHistory

  // --- the first-row race -----------------------------------------------------------------------

  function FirstAdvance(scope: Scope, artifact: string, id: string): Advance {
    Advance("m", scope, artifact, Implemented, NotReady, PrivateOnly, None, None, None, None, None, 0, id, id)
  }

  /** A table after a root row was committed onto it. */
  function WithRoot(h: Hashing, t: Tables, scope: Scope, artifact: string, id: string): Tables {
    var adv := FirstAdvance(scope, artifact, id);
    t.(states := t.states + [NewRow(h, adv, None)], transitions := t.transitions + [NewTransition(adv, None)])
  }

  /** A caller that read an empty table commits a root whatever the table holds by then. */
  lemma FirstRowCommits(h: Hashing, scope: Scope, artifact: string, id: string, t: Tables)
    requires IsContentAddress(artifact) && id != "" && IndexOf(t.states, id).None? && !Logged(t.transitions, id)
    ensures Next(h, EMPTY, t, DoAdvance(FirstAdvance(scope, artifact, id), 0, true)) == WithRoot(h, t, scope, artifact, id)
  {
    var adv := FirstAdvance(scope, artifact, id);
    assert Head(EMPTY.states, "m", scope).None?;
    assert Precheck(h, adv, None).None?;
  }

  function RaceSteps(scope: Scope, artifact: string, a: string, b: string): seq<Step> {
    [DoAdvance(FirstAdvance(scope, artifact, a), 0, true), DoAdvance(FirstAdvance(scope, artifact, b), 0, true)]
  }

  function RaceTrace(h: Hashing, scope: Scope, artifact: string, a: string, b: string): seq<Tables> {
    var t := WithRoot(h, EMPTY, scope, artifact, a);
    [EMPTY, t, WithRoot(h, t, scope, artifact, b)]
  }

  lemma SecondRootCommits(h: Hashing, scope: Scope, artifact: string, a: string, b: string)
    requires IsContentAddress(artifact) && b != "" && a != b
    ensures var t := WithRoot(h, EMPTY, scope, artifact, a);
            Next(h, EMPTY, t, DoAdvance(FirstAdvance(scope, artifact, b), 0, true)) == WithRoot(h, t, scope, artifact, b)
  {
    var t := WithRoot(h, EMPTY, scope, artifact, a);
    assert |t.states| == |t.transitions| == 1 && t.states[0].id == a && t.transitions[0].id == a;
    assert IndexOf(t.states, b).None? && !Logged(t.transitions, b);
    FirstRowCommits(h, scope, artifact, b, t);
  }

  lemma RaceIsTrace(h: Hashing, scope: Scope, artifact: string, a: string, b: string)
    requires IsContentAddress(artifact) && a != "" && b != "" && a != b
    ensures IsTrace(h, RaceTrace(h, scope, artifact, a, b), RaceSteps(scope, artifact, a, b))
  {
    FirstRowCommits(h, scope, artifact, a, EMPTY);
    SecondRootCommits(h, scope, artifact, a, b);
    TwoStepTrace(h, RaceTrace(h, scope, artifact, a, b), RaceSteps(scope, artifact, a, b));
  }

  lemma TwoStepTrace(h: Hashing, trace: seq<Tables>, steps: seq<Step>)
    requires |trace| == 3 && |steps| == 2 && trace[0] == EMPTY
    requires ReadIndex(steps[0], 0) == 0 && trace[1] == Next(h, trace[0], trace[0], steps[0])
    requires ReadIndex(steps[1], 1) == 0 && trace[2] == Next(h, trace[0], trace[1], steps[1])
    ensures IsTrace(h, trace, steps)
  {
    assert Follows(h, trace, steps, 0) && Follows(h, trace, steps, 1);
  }

  /** Two callers that both read an empty scope both commit, and the scope is forked. */
  lemma FirstRowRace(h: Hashing, scope: Scope, artifact: string, a: string, b: string)
    requires IsContentAddress(artifact) && a != "" && b != "" && a != b
    ensures var trace, steps := RaceTrace(h, scope, artifact, a, b), RaceSteps(scope, artifact, a, b);
            IsTrace(h, trace, steps) && Forks(h, trace, steps, 1, "m", scope)
  {
    RaceIsTrace(h, scope, artifact, a, b);
    assert InScope(RaceTrace(h, scope, artifact, a, b)[1].states[0], "m", scope);
  }

  // --- containment of a disabled scope ------------------------------------------------------------

  function DisableAdvance(scope: Scope, artifact: string): Advance {
    Advance("m", scope, artifact, Disabled, NotReady, PrivateOnly, None, None, None, None, None, 1, "b", "b")
  }

  /** Implemented, then disabled, then a critical gate fails. */
  function DisabledThenContained(scope: Scope, artifact: string, gate: CriticalGate): seq<Step> {
    [DoAdvance(FirstAdvance(scope, artifact, "a"), 0, true), DoAdvance(DisableAdvance(scope, artifact), 1, true),
     DoContain(GateFailure(scope, gate), true)]
  }

  function GateFailure(scope: Scope, gate: CriticalGate): ContainInput { ContainInput(gate, None, "m", scope, "c", 2) }

  function FirstRow(h: Hashing, scope: Scope, artifact: string): StateRow { NewRow(h, FirstAdvance(scope, artifact, "a"), None) }

  function DisabledRow(h: Hashing, scope: Scope, artifact: string): StateRow {
    NewRow(h, DisableAdvance(scope, artifact), Some(FirstRow(h, scope, artifact)))
  }

  function AfterFirst(h: Hashing, scope: Scope, artifact: string): Tables {
    EMPTY.(states := [FirstRow(h, scope, artifact)], transitions := [NewTransition(FirstAdvance(scope, artifact, "a"), None)])
  }

  function AfterDisabled(h: Hashing, scope: Scope, artifact: string): Tables {
    EMPTY.(states := [Superseded(FirstRow(h, scope, artifact), "b"), DisabledRow(h, scope, artifact)],
           transitions := [NewTransition(FirstAdvance(scope, artifact, "a"), None),
                           NewTransition(DisableAdvance(scope, artifact), Some(FirstRow(h, scope, artifact)))])
  }

  lemma FirstStep(h: Hashing, scope: Scope, artifact: string)
    requires IsContentAddress(artifact)
    ensures Next(h, EMPTY, EMPTY, DoAdvance(FirstAdvance(scope, artifact, "a"), 0, true)) == AfterFirst(h, scope, artifact)
  {
    FirstRowCommits(h, scope, artifact, "a", EMPTY);
  }

  lemma HeadOfOne(row: StateRow)
    requires row.supersededBy.None?
    ensures Head([row], row.moduleId, row.scope) == Some(row)
  {
    assert [row][..0] == [];
  }

  lemma HeadOfTwo(before: StateRow, row: StateRow)
    requires before.supersededBy.Some? && row.supersededBy.None?
    ensures Head([before, row], row.moduleId, row.scope) == Some(row)
  {
    assert [before, row][..1] == [before] && [before][..0] == [];
    assert Head([before], row.moduleId, row.scope).None?;
  }

  lemma SecondStep(h: Hashing, scope: Scope, artifact: string)
    requires IsContentAddress(artifact)
    ensures var t := AfterFirst(h, scope, artifact);
            Next(h, t, t, DoAdvance(DisableAdvance(scope, artifact), 1, true)) == AfterDisabled(h, scope, artifact)
  {
    var t, adv, row := AfterFirst(h, scope, artifact), DisableAdvance(scope, artifact), FirstRow(h, scope, artifact);
    HeadOfOne(row);
    assert "a"[0] != "b"[0];
    assert IndexOf(t.states, "b").None? && !Logged(t.transitions, "b");
    assert t.states[..0] == [];
    assert IndexOf(t.states, "a") == Some(0);
    assert Precheck(h, adv, Some(row)).None?;
    assert t.states[0 := Superseded(row, "b")] == [Superseded(row, "b")];
  }

  lemma ReadyForContainment(h: Hashing, scope: Scope, artifact: string, gate: CriticalGate)
    requires IsContentAddress(artifact)
    ensures ContainReady(AfterDisabled(h, scope, artifact), GateFailure(scope, gate), DisabledRow(h, scope, artifact))
  {
    var t, row := AfterDisabled(h, scope, artifact), DisabledRow(h, scope, artifact);
    HeadOfTwo(t.states[0], row);
    assert |"c" + "-state"| == 7 && |"c" + "-transition"| == 12 && |"a"| == |"b"| == 1;
    assert "a"[0] != "b"[0];
    assert forall i :: 0 <= i < 2 ==> |t.states[i].id| == 1 && |t.transitions[i].id| == 1;
    assert t.states[0].id == "a" && t.states[1].id == "b";
  }

  /** The trace up to the containment, then whatever the containment does. */
  function ContainTrace(h: Hashing, scope: Scope, artifact: string, gate: CriticalGate): seq<Tables> {
    var t := AfterDisabled(h, scope, artifact);
    [EMPTY, AfterFirst(h, scope, artifact), t, Next(h, t, t, DoContain(GateFailure(scope, gate), true))]
  }

  lemma ContainTraceIsTrace(h: Hashing, scope: Scope, artifact: string, gate: CriticalGate)
    requires IsContentAddress(artifact)
    ensures IsTrace(h, ContainTrace(h, scope, artifact, gate), DisabledThenContained(scope, artifact, gate))
  {
    var trace, steps := ContainTrace(h, scope, artifact, gate), DisabledThenContained(scope, artifact, gate);
    FirstStep(h, scope, artifact);
    SecondStep(h, scope, artifact);
    forall k | 0 <= k < |steps| ensures Follows(h, trace, steps, k) {
      assert k == 0 || k == 1 || k == 2;
    }
  }

  /** A hard failure of a scope that is already DISABLED is refused, and no containment is on record. */
  lemma DisabledContainmentIsLost(h: Hashing, scope: Scope, artifact: string, gate: CriticalGate)
    requires IsContentAddress(artifact) && ActionFor(gate) == Disabled
    ensures var trace, steps := ContainTrace(h, scope, artifact, gate), DisabledThenContained(scope, artifact, gate);
            && IsTrace(h, trace, steps)
            && Contain(h, trace[2], GateFailure(scope, gate), true).Err?
            && trace[3] == trace[2] && trace[3].containments == []
  {
    ContainTraceIsTrace(h, scope, artifact, gate);
    ReadyForContainment(h, scope, artifact, gate);
    ContainmentRefusedIff(h, AfterDisabled(h, scope, artifact), GateFailure(scope, gate), DisabledRow(h, scope, artifact));
  }

  /** A pressure failure of a DISABLED scope commits and moves it to DEGRADED. */
  lemma DisabledContainmentRelaxes(h: Hashing, scope: Scope, artifact: string, gate: CriticalGate)
    requires IsContentAddress(artifact) && ActionFor(gate) == Degraded
    ensures var trace, steps := ContainTrace(h, scope, artifact, gate), DisabledThenContained(scope, artifact, gate);
            && IsTrace(h, trace, steps)
            && Head(trace[2].states, "m", scope).Some? && Head(trace[2].states, "m", scope).value.state == Disabled
            && Head(trace[3].states, "m", scope).Some? && Head(trace[3].states, "m", scope).value.state == Degraded
            && Contained(trace[3].containments, "m", h.scopeHash(scope))
  {
    var t, input, row := AfterDisabled(h, scope, artifact), GateFailure(scope, gate), DisabledRow(h, scope, artifact);
    ContainTraceIsTrace(h, scope, artifact, gate);
    ReadyForContainment(h, scope, artifact, gate);
    ContainmentRefusedIff(h, t, input, row);
    ContainmentRecordsApplied(h, t, input, true);
    var trace, steps := ContainTrace(h, scope, artifact, gate), DisabledThenContained(scope, artifact, gate);
    FreshReadsNeverFork(h, trace, steps, 3, "m", scope);
    NewestIsHead(trace[3].states, "m", scope);
  }

  /** In an unforked scope the row appended last is the head. */
  lemma NewestIsHead(states: seq<StateRow>, moduleId: string, scope: Scope)
    requires states != [] && InScope(states[|states| - 1], moduleId, scope) && Linear(Rows(states, moduleId, scope))
    ensures Head(states, moduleId, scope) == Some(states[|states| - 1])
  {
    var before, last := states[..|states| - 1], states[|states| - 1];
    assert states == before + [last];
    RowsAppend(before, last, moduleId, scope);
    var rows, head := Rows(states, moduleId, scope), Head(states, moduleId, scope);
    assert rows[|rows| - 1] == last && last.supersededBy.None?;
    assert states[|states| - 1] == last;
    assert head.value in rows;
    var i :| 0 <= i < |rows| && rows[i] == head.value;
    assert i < |rows| - 1 ==> PointsOn(rows, i);
  }
}
