/** When containment, clearing and rollback commit, and what they leave behind. */
module RegistryOutcomes {
  import opened Prelude
  import opened Texts
  import opened GateEvidence
  import opened ModuleRegistry
  import opened RegistryHistory
  import opened RegistryEntry

  // --- the stop a failed gate leads to --------------------------------------------------------------

  /** The gates whose failure asks for an action, read by action. */
  function AskedBy(action: Position): set<CriticalGate> {
    match action
    case Disabled => {Security, Leakage, Rights, Adversarial, Claims}
    case Paused => {Parity, Recovery}
    case Degraded => {Capacity, Calibration}
    case _ => {}
  }

  lemma ActionIff(gate: CriticalGate, action: Position)
    ensures ActionFor(gate) == action <==> gate in AskedBy(action)
  {
  }

  /** At least as strong a stop: DISABLED over PAUSED over DEGRADED. */
  predicate AtLeast(a: Position, b: Position) {
    a == b || a == Disabled || (a == Paused && b == Degraded)
  }

  /** The asked action is the gate's own or the caller's minimum, and at least as strong as both. */
  lemma AskedIsStrongest(input: ContainInput)
    requires input.minimum.Some? ==> input.minimum.value in {Degraded, Paused, Disabled}
    ensures RequestedAction(input) == ActionFor(input.gate) || (input.minimum.Some? && RequestedAction(input) == input.minimum.value)
    ensures AtLeast(RequestedAction(input), ActionFor(input.gate))
    ensures input.minimum.Some? ==> AtLeast(RequestedAction(input), input.minimum.value)
  {
  }

  /** Containment commits if and only if its scope is governed, nothing is ill-formed or reused, and not both stops are DISABLED. */
  lemma ContainCommitsIff(h: Hashing, t: Tables, input: ContainInput)
    requires Chained(t)
    ensures var head := Head(t.states, input.moduleId, input.scope);
            Contain(h, t, input, true).Ok? <==>
            && head.Some? && ContainReady(t, input, head.value)
            && !(head.value.state == Disabled && RequestedAction(input) == Disabled)
  {
    var head := Head(t.states, input.moduleId, input.scope);
    if head.Some? {
      var i :| 0 <= i < |t.states| && t.states[i] == head.value;
      assert head.value.state != NotImplemented;
      if Contain(h, t, input, true).Ok? { ContainNested(h, t, input, head.value); }
      if ContainReady(t, input, head.value) { ContainmentRefusedIff(h, t, input, head.value); }
    }
  }

  /** The advance inside a containment that commits is well posed, so the containment was ready. */
  lemma ContainNested(h: Hashing, t: Tables, input: ContainInput, current: StateRow)
    requires UniqueIds(t.states) && Head(t.states, input.moduleId, input.scope) == Some(current) && current.state != NotImplemented
    requires Contain(h, t, input, true).Ok?
    ensures ContainReady(t, input, current)
  {
    var row := Containment(input.containmentId, input.moduleId, h.scopeHash(input.scope),
                           AppliedAction(current, RequestedAction(input)), None);
    var t' := t.(containments := t.containments + [row]);
    CommitsIff(h, t', t', ContainAdvance(input, current), true);
  }

  /**
   A committed containment moves the scope to the asked stop, or to DISABLED where no edge leads
   there; the new row keeps artifact, readiness and event, and the recorded action is its state.
   */
  lemma ContainLeaves(h: Hashing, t: Tables, input: ContainInput, current: StateRow)
    requires ContainReady(t, input, current) && Contain(h, t, input, true).Ok?
    ensures var t' := Contain(h, t, input, true).value;
            && |t'.states| == |t.states| + 1 && |t'.containments| == |t.containments| + 1
            && t'.containments[..|t.containments|] == t.containments && t'.rollbacks == t.rollbacks && t'.evaluations == t.evaluations
            && var row, stop := t'.states[|t.states|], t'.containments[|t.containments|];
               && row.state == (if current.state in EnteredFrom(RequestedAction(input)) then RequestedAction(input) else Disabled)
               && stop == Containment(input.containmentId, input.moduleId, h.scopeHash(input.scope), row.state, None)
               && row.artifact == current.artifact && row.operational == current.operational
               && row.distribution == current.distribution && row.event == current.event && row.kind.None?
               && InScope(row, input.moduleId, input.scope) && row.id == input.containmentId + "-state"
  {
    var stop := Containment(input.containmentId, input.moduleId, h.scopeHash(input.scope),
                            AppliedAction(current, RequestedAction(input)), None);
    var t' := t.(containments := t.containments + [stop]);
    LegalIffEntered(current.state, RequestedAction(input));
    CommitLeaves(h, t', t', ContainAdvance(input, current), true);
    CommitCites(h, t', t', ContainAdvance(input, current), true);
  }

  // --- clearing -------------------------------------------------------------------------------------

  predicate OpenAt(containments: seq<Containment>, id: string, i: nat) {
    i < |containments| && containments[i].id == id && containments[i].clearedBy.None?
  }

  lemma {:induction false} ClearAtIff(containments: seq<Containment>, id: string, event: string)
    ensures ClearAt(containments, id, event).None? <==> forall i: nat :: !OpenAt(containments, id, i)
    ensures ClearAt(containments, id, event).Some? ==>
              exists i: nat :: OpenAt(containments, id, i)
                && ClearAt(containments, id, event).value == containments[i := containments[i].(clearedBy := Some(event))]
  {
    if containments != [] {
      var n := |containments| - 1;
      var init, last := containments[..n], containments[n];
      assert containments == init + [last];
      ClearAtIff(init, id, event);
      if last.id == id && last.clearedBy.None? {
        assert OpenAt(containments, id, n);
      } else {
        assert forall i: nat :: OpenAt(containments, id, i) <==> OpenAt(init, id, i);
        if ClearAt(init, id, event).Some? {
          var i: nat :| OpenAt(init, id, i) && ClearAt(init, id, event).value == init[i := init[i].(clearedBy := Some(event))];
          assert ClearAt(containments, id, event).value == containments[i := containments[i].(clearedBy := Some(event))];
        }
      }
    }
  }

  /** Clearing commits if and only if the event has a non-space character and an open containment has the id; it sets that one pointer. */
  lemma ClearCommitsIff(t: Tables, id: string, event: string)
    ensures Clear(t, id, event).Ok? <==> (exists i :: 0 <= i < |event| && event[i] != ' ') && exists i: nat :: OpenAt(t.containments, id, i)
    ensures Clear(t, id, event).Ok? ==>
              exists i: nat :: OpenAt(t.containments, id, i)
                && Clear(t, id, event).value
                   == t.(containments := t.containments[i := t.containments[i].(clearedBy := Some(event))])
  {
    ClearAtIff(t.containments, id, event);
    if Clear(t, id, event).Ok? {
      var i: nat :| OpenAt(t.containments, id, i)
        && ClearAt(t.containments, id, event).value == t.containments[i := t.containments[i].(clearedBy := Some(event))];
      assert Clear(t, id, event).value == t.(containments := t.containments[i := t.containments[i].(clearedBy := Some(event))]);
    }
  }

  // --- rollback -------------------------------------------------------------------------------------

  /** The restore names a set that was ACTIVE in this scope under the prior event, and a different new event. */
  predicate NamesApproved(read: Tables, input: RollbackInput) {
    && input.prior != "" && input.next != "" && input.reevaluation != "" && input.next != input.prior
    && exists i :: 0 <= i < |read.states| && InScope(read.states[i], input.moduleId, input.scope)
         && read.states[i].artifact == input.artifact && read.states[i].event == Some(input.prior) && read.states[i].state == Active
  }

  predicate Unused(t: Tables, input: RollbackInput) {
    && (forall i :: 0 <= i < |t.rollbacks| ==> t.rollbacks[i].id != input.rollbackId && t.rollbacks[i].next != input.next)
    && (forall i :: 0 <= i < |t.states| ==> t.states[i].id != input.rollbackId + "-state")
    && (forall i :: 0 <= i < |t.transitions| ==> t.transitions[i].id != input.rollbackId + "-transition")
  }

  predicate Stopped(t: Tables, moduleId: string, hash: string) {
    exists i :: 0 <= i < |t.containments| && t.containments[i].moduleId == moduleId && t.containments[i].scopeHash == hash
      && t.containments[i].clearedBy.None?
  }

  /**
   A rollback commits if and only if it names an approved set, the scope is not contained, nothing is
   reused, the head it read is the head it writes onto, and PAUSED or DISABLED can be entered from it.
   */
  lemma RollbackCommitsIff(h: Hashing, read: Tables, t: Tables, input: RollbackInput)
    requires Chained(t)
    ensures var seen, now := Head(read.states, input.moduleId, input.scope), Head(t.states, input.moduleId, input.scope);
            RollBack(h, read, t, input, true).Ok? <==>
            && input.moduleId != "" && IsContentAddress(input.artifact) && NamesApproved(read, input)
            && !Stopped(t, input.moduleId, h.scopeHash(input.scope)) && Unused(t, input) && HasInk(input.next)
            && seen.Some? && now.Some? && now.value.id == seen.value.id
            && (if seen.value.state in EnteredFrom(Paused) then now.value.state in EnteredFrom(Paused) else now.value.state in EnteredFrom(Disabled))
  {
    var seen := Head(read.states, input.moduleId, input.scope);
    assert Contained(t.containments, input.moduleId, h.scopeHash(input.scope)) <==> Stopped(t, input.moduleId, h.scopeHash(input.scope));
    ApprovedIff(read, input);
    if seen.Some? {
      RollbackNested(h, t, input, seen.value);
    }
  }

  lemma ApprovedIff(read: Tables, input: RollbackInput)
    ensures NamesApproved(read, input) <==>
            && input.prior != "" && input.next != "" && input.reevaluation != "" && input.next != input.prior && Approved(read.states, input)
  {
  }

  /** The advance inside a rollback. */
  lemma RollbackNested(h: Hashing, t: Tables, input: RollbackInput, seen: StateRow)
    requires UniqueIds(t.states)
    ensures var now := Head(t.states, input.moduleId, input.scope);
            var row := Rollback(input.rollbackId, input.moduleId, input.artifact, input.prior, input.next);
            var t' := t.(rollbacks := t.rollbacks + [row]);
            AdvanceState(h, t', t', RollbackAdvance(input, seen), true).Ok? <==>
            && input.moduleId != "" && IsContentAddress(input.artifact) && HasInk(input.next)
            && (forall i :: 0 <= i < |t.states| ==> t.states[i].id != input.rollbackId + "-state")
            && (forall i :: 0 <= i < |t.transitions| ==> t.transitions[i].id != input.rollbackId + "-transition")
            && now.Some? && now.value.id == seen.id
            && (if seen.state in EnteredFrom(Paused) then now.value.state in EnteredFrom(Paused) else now.value.state in EnteredFrom(Disabled))
  {
    var row := Rollback(input.rollbackId, input.moduleId, input.artifact, input.prior, input.next);
    var t' := t.(rollbacks := t.rollbacks + [row]);
    LegalIffEntered(seen.state, Paused);
    PlainCommitsIff(h, t', t', RollbackAdvance(input, seen), true);
    HeadStays(t', input.moduleId, input.scope);
  }

  /** A head read where it is written is unsuperseded there. */
  lemma HeadStays(t: Tables, moduleId: string, scope: Scope)
    ensures StillHead(t, Head(t.states, moduleId, scope))
  {
  }
}
