/**
 The registry's reads and writes as they run: numeric walks over an ordered result set, and
 transactions that insert, set the pointer, and roll back. Each is proved against the functions
 of `ModuleRegistry`.
 */
module RegistryEngine {
  import opened Prelude
  import opened TextOrder
  import opened Texts
  import opened GateEvidence
  import opened ModuleRegistry
  import RegistryHistory

  // --- reads ------------------------------------------------------------------------------------

  /** Rows in the order of the scope query: creation instant, then id. */
  predicate Ordered(rows: seq<StateRow>) {
    forall i, j :: 0 <= i < j < |rows| ==> Newer(rows[j], rows[i])
  }

  /** What the scope query returns: exactly the rows of the scope, ordered. */
  ghost predicate IsScopeRead(rows: seq<StateRow>, states: seq<StateRow>, moduleId: string, scope: Scope) {
    Ordered(rows) && forall row :: row in rows <==> row in RegistryHistory.Rows(states, moduleId, scope)
  }

  predicate IsHead(states: seq<StateRow>, moduleId: string, scope: Scope, row: StateRow) {
    row in states && InScope(row, moduleId, scope) && row.supersededBy.None?
  }

  lemma NewerIsStrict(a: StateRow, b: StateRow, c: StateRow)
    ensures !(Newer(a, b) && Newer(b, a))
    ensures Newer(a, b) && Newer(b, c) ==> Newer(a, c)
    ensures a.id != b.id ==> Newer(a, b) || Newer(b, a)
  {
    LessTrichotomy(a.id, b.id);
    if Less(b.id, a.id) && Less(c.id, b.id) {
      LessTransitive(c.id, b.id, a.id);
    }
  }

  /** The head is the newest of all unsuperseded rows of the scope. */
  lemma {:induction false} HeadIsNewest(states: seq<StateRow>, moduleId: string, scope: Scope, row: StateRow)
    requires UniqueIds(states) && IsHead(states, moduleId, scope, row)
    ensures Head(states, moduleId, scope).Some?
    ensures row == Head(states, moduleId, scope).value || Newer(Head(states, moduleId, scope).value, row)
    decreases |states|
  {
    var n := |states| - 1;
    var rest, last := Head(states[..n], moduleId, scope), states[n];
    assert states == states[..n] + [last];
    if row in states[..n] {
      HeadIsNewest(states[..n], moduleId, scope, row);
      NewerIsStrict(last, rest.value, row);
    } else if rest.Some? {
      NewerIsStrict(last, rest.value, row);
    }
  }

  /** `nonSupersededHead` over the ordered rows of the scope finds the head. */
  method CurrentStateRow(states: seq<StateRow>, rows: seq<StateRow>, moduleId: string, scope: Scope) returns (head: Option<StateRow>)
    requires UniqueIds(states) && IsScopeRead(rows, states, moduleId, scope)
    ensures head == Head(states, moduleId, scope)
  {
    head := None;
    for index := 0 to |rows|
      invariant head.None? ==> forall i :: 0 <= i < index ==> rows[i].supersededBy.Some?
      invariant head.Some? ==> head.value in rows && head.value.supersededBy.None?
      invariant head.Some? ==>
                  forall i :: 0 <= i < index && rows[i].supersededBy.None? ==> rows[i] == head.value || Newer(head.value, rows[i])
    {
      if rows[index].supersededBy.None? {
        head := Some(rows[index]);
      }
    }
    NewestIsHead(states, rows, moduleId, scope, head);
  }

  lemma NewestIsHead(states: seq<StateRow>, rows: seq<StateRow>, moduleId: string, scope: Scope, head: Option<StateRow>)
    requires UniqueIds(states) && forall row :: row in rows <==> row in states && InScope(row, moduleId, scope)
    requires head.None? ==> forall row :: row in rows ==> row.supersededBy.Some?
    requires head.Some? ==> head.value in rows && head.value.supersededBy.None?
    requires head.Some? ==> forall row :: row in rows && row.supersededBy.None? ==> row == head.value || Newer(head.value, row)
    ensures head == Head(states, moduleId, scope)
  {
    var expected := Head(states, moduleId, scope);
    if head.Some? {
      HeadIsNewest(states, moduleId, scope, head.value);
      NewerIsStrict(head.value, expected.value, head.value);
    }
  }

  datatype Dimensions = Dimensions(position: Position, implemented: bool, available: bool, proven: bool, current: Option<string>)

  /** `statesFor`: the three dimensions, each established by history and never by the current position alone. */
  method StatesFor(states: seq<StateRow>, rows: seq<StateRow>, moduleId: string, scope: Scope) returns (r: Dimensions)
    requires UniqueIds(states) && IsScopeRead(rows, states, moduleId, scope)
    ensures r.implemented == IsImplemented(states, moduleId, scope)
    ensures r.available == IsAvailable(states, moduleId, scope)
    ensures r.proven == IsProven(states, moduleId, scope)
    ensures !r.implemented ==> r.position == NotImplemented && r.current.None?
    ensures r.implemented && Head(states, moduleId, scope).Some? ==>
              r.position == Head(states, moduleId, scope).value.state && r.current == Some(Head(states, moduleId, scope).value.id)
  {
    if |rows| == 0 {
      assert forall i :: 0 <= i < |states| && InScope(states[i], moduleId, scope) ==> states[i] in rows;
      return Dimensions(NotImplemented, false, false, false, None);
    }
    var found := CurrentStateRow(states, rows, moduleId, scope);
    var head := if found.Some? then found.value else rows[|rows| - 1];
    var available, proven := false, false;
    for index := 0 to |rows|
      invariant available == exists i :: 0 <= i < index && rows[i].state in ESTABLISHES_AVAILABLE
      invariant proven == exists i :: 0 <= i < index && rows[i].state in {Proven}
    {
      if rows[index].state in ESTABLISHES_AVAILABLE { available := true; }
      if rows[index].state == Proven { proven := true; }
    }
    ReachedInRows(states, rows, moduleId, scope, ESTABLISHES_AVAILABLE);
    ReachedInRows(states, rows, moduleId, scope, {Proven});
    assert rows[0] in states && InScope(rows[0], moduleId, scope);
    r := Dimensions(head.state, true, available, proven, Some(head.id));
  }

  lemma ReachedInRows(states: seq<StateRow>, rows: seq<StateRow>, moduleId: string, scope: Scope, positions: set<Position>)
    requires forall row :: row in rows <==> row in states && InScope(row, moduleId, scope)
    ensures Reached(states, moduleId, scope, positions) <==> exists i :: 0 <= i < |rows| && rows[i].state in positions
  {
    if Reached(states, moduleId, scope, positions) {
      var i :| 0 <= i < |states| && InScope(states[i], moduleId, scope) && states[i].state in positions;
      assert states[i] in rows;
    }
    if i :| 0 <= i < |rows| && rows[i].state in positions {
      assert rows[i] in states;
      var j :| 0 <= j < |states| && states[j] == rows[i];
    }
  }

  // --- writes -----------------------------------------------------------------------------------

  class Engine {
    var states: seq<StateRow>
    var transitions: seq<Transition>
    var containments: seq<Containment>
    var rollbacks: seq<Rollback>
    var evaluations: seq<Row>

    function Contents(): (t: Tables)
      reads this
    {
      Tables(states, transitions, containments, rollbacks, evaluations)
    }

    constructor ()
      ensures Contents() == EMPTY
    {
      states, transitions, containments, rollbacks, evaluations := [], [], [], [], [];
    }

    method Restore(t: Tables)
      modifies this
      ensures Contents() == t
    {
      states, transitions, containments, rollbacks, evaluations :=
        t.states, t.transitions, t.containments, t.rollbacks, t.evaluations;
    }

    /** `UPDATE ... SET superseded_by WHERE state_row_id AND superseded_by IS NULL`. */
    method SetPointer(id: string, successor: string) returns (updated: nat)
      modifies this`states
      ensures var at := IndexOf(old(states), id);
              if at.Some? && old(states)[at.value].supersededBy.None?
              then updated == 1 && states == old(states)[at.value := Superseded(old(states)[at.value], successor)]
              else updated == 0 && states == old(states)
    {
      updated := 0;
      var index: nat := |states|;
      assert states[..index] == states;
      while index > 0
        invariant 0 <= index <= |states| && states == old(states) && updated == 0
        invariant IndexOf(states, id) == IndexOf(states[..index], id)
      {
        assert states[..index][..index - 1] == states[..index - 1];
        index := index - 1;
        if states[index].id == id {
          if states[index].supersededBy.None? {
            states := states[index := Superseded(states[index], successor)];
            updated := 1;
          }
          return;
        }
      }
    }

    /** The transaction of `advanceState`: a refusal at any point leaves every table as it was. */
    method AdvanceWith(h: Hashing, input: Advance, current: Option<StateRow>, accepted: bool) returns (r: Option<Refusal>)
      requires Precheck(h, input, current).None?
      modifies this
      ensures match Transact(h, old(Contents()), input, current, accepted)
              case Ok(after) => r.None? && Contents() == after
              case Err(refusal) => r == Some(refusal) && Contents() == old(Contents())
    {
      var before := Contents();
      if IndexOf(states, input.rowId).Some? { return Some(InPlaceMutation); }
      r := GuardRefusal(h, before, input);
      if r.Some? { return; }
      var event := EventOf(input, current);
      if !accepted || (event.Some? && Blank(event.value)) || Logged(transitions, input.transitionId) {
        return Some(ConstraintViolated);
      }
      states := states + [NewRow(h, input, current)];
      if current.Some? {
        AppendKeepsIndex(before.states, NewRow(h, input, current), current.value.id);
        var updated := SetPointer(current.value.id, input.rowId);
        if updated != 1 || current.value.id == input.rowId { // a row never supersedes itself
          Restore(before);
          return Some(SupersedeRace);
        }
      }
      transitions := transitions + [NewTransition(input, current)];
    }

    /** `advanceState`: the caller's head, read earlier from `read`, decides the checks and the pointer. */
    method AdvanceState(h: Hashing, read: Tables, input: Advance, accepted: bool) returns (r: Option<Refusal>)
      modifies this
      ensures match ModuleRegistry.AdvanceState(h, read, old(Contents()), input, accepted)
              case Ok(after) => r.None? && Contents() == after
              case Err(refusal) => r == Some(refusal) && Contents() == old(Contents())
    {
      var current := Head(read.states, input.moduleId, input.scope);
      r := Precheck(h, input, current);
      if r.None? { r := AdvanceWith(h, input, current, accepted); }
    }

    /** `containForFailedGate` on its resolved target. */
    method ContainForFailedGate(h: Hashing, input: ContainInput, accepted: bool) returns (r: Option<Refusal>)
      modifies this
      ensures match Contain(h, old(Contents()), input, accepted)
              case Ok(after) => r.None? && Contents() == after
              case Err(refusal) => r == Some(refusal) && Contents() == old(Contents())
    {
      var before := Contents();
      if input.minimum.Some? && input.minimum.value !in {Degraded, Paused, Disabled} { return Some(Malformed); }
      var current := Head(states, input.moduleId, input.scope);
      if current.None? { return Some(UnknownScope); }
      if input.containmentId == "" || ContainmentExists(containments, input.containmentId) { return Some(ConstraintViolated); }
      containments := containments + [Containment(input.containmentId, input.moduleId, h.scopeHash(input.scope),
                                                  AppliedAction(current.value, RequestedAction(input)), None)];
      r := AdvanceState(h, Contents(), ContainAdvance(input, current.value), accepted);
      if r.Some? { Restore(before); }
    }

    /** `rollbackToApproved`. */
    method RollbackToApproved(h: Hashing, read: Tables, input: RollbackInput, accepted: bool) returns (r: Option<Refusal>)
      modifies this
      ensures match RollBack(h, read, old(Contents()), input, accepted)
              case Ok(after) => r.None? && Contents() == after
              case Err(refusal) => r == Some(refusal) && Contents() == old(Contents())
    {
      var before := Contents();
      if !IsContentAddress(input.artifact) || input.prior == "" || input.next == "" || input.reevaluation == "" || input.next == input.prior {
        return Some(Malformed);
      }
      if !Approved(read.states, input) { return Some(NotApproved); }
      var current := Head(read.states, input.moduleId, input.scope);
      if current.None? { return Some(UnknownScope); }
      if Contained(containments, input.moduleId, h.scopeHash(input.scope)) { return Some(ContainmentOpen); }
      if RollbackClashes(rollbacks, input) { return Some(ConstraintViolated); }
      rollbacks := rollbacks + [Rollback(input.rollbackId, input.moduleId, input.artifact, input.prior, input.next)];
      r := AdvanceState(h, Contents(), RollbackAdvance(input, current.value), accepted);
      if r.Some? { Restore(before); }
    }

    /** `clearContainment`. */
    method ClearContainment(id: string, event: string) returns (r: Option<Refusal>)
      modifies this`containments
      ensures match Clear(old(Contents()), id, event)
              case Ok(after) => r.None? && Contents() == after
              case Err(refusal) => r == Some(refusal) && Contents() == old(Contents())
    {
      if forall i :: 0 <= i < |event| ==> event[i] == ' ' { return Some(GateRefused); }
      var cleared := ClearAt(containments, id, event);
      if cleared.None? { return Some(GateRefused); }
      containments := cleared.value;
      r := None;
    }
  }

  lemma AppendKeepsIndex(states: seq<StateRow>, row: StateRow, id: string)
    ensures IndexOf(states + [row], id) == if row.id == id then Some(|states|) else IndexOf(states, id)
  {
    assert (states + [row])[..|states|] == states;
  }

  // --- the smallest affected scope --------------------------------------------------------------

  datatype Candidate = Candidate(moduleId: string, scope: Scope)

  /** Concrete dimensions of a scope; `*` is the wildcard. */
  function Specificity(scope: Scope): nat {
    var one := (s: string) => if s == "*" then 0 else 1;
    one(scope.profile) + one(scope.policy) + one(scope.regime) + one(scope.execution) + one(scope.delay) + one(scope.population)
  }

  /** Preferred for containment: more specific, then smaller hash, then smaller module id. */
  predicate Preferred(h: Hashing, a: Candidate, b: Candidate) {
    var ha, hb := h.scopeHash(a.scope), h.scopeHash(b.scope);
    if Specificity(a.scope) != Specificity(b.scope) then Specificity(a.scope) > Specificity(b.scope)
    else if ha != hb then Less(ha, hb)
    else Less(a.moduleId, b.moduleId)
  }

  lemma PreferredIsStrict(h: Hashing, a: Candidate, b: Candidate, c: Candidate)
    ensures !(Preferred(h, a, b) && Preferred(h, b, a))
    ensures !Preferred(h, b, a) && !Preferred(h, c, b) ==> !Preferred(h, c, a)
    ensures !Preferred(h, a, b) && !Preferred(h, b, a) ==> h.scopeHash(a.scope) == h.scopeHash(b.scope) && a.moduleId == b.moduleId
  {
    var ha, hb, hc := h.scopeHash(a.scope), h.scopeHash(b.scope), h.scopeHash(c.scope);
    LessTrichotomy(ha, hb);
    LessTrichotomy(a.moduleId, b.moduleId);
    LessTrichotomy(hb, hc);
    LessTrichotomy(b.moduleId, c.moduleId);
    LessTrichotomy(ha, hc);
    LessTrichotomy(a.moduleId, c.moduleId);
    LessTransitiveUnder(ha, hb, hc);
    LessTransitiveUnder(a.moduleId, b.moduleId, c.moduleId);
  }

  lemma LessTransitiveUnder(a: string, b: string, c: string)
    ensures Less(a, b) && Less(b, c) ==> Less(a, c)
  {
    if Less(a, b) && Less(b, c) { LessTransitive(a, b, c); }
  }

  /** Containment targets a candidate that no candidate is preferred to: it never widens. */
  method SmallestAffectedScope(h: Hashing, candidates: seq<Candidate>) returns (winner: Option<Candidate>)
    ensures winner.None? <==> candidates == []
    ensures winner.Some? ==>
              && winner.value in candidates
              && forall c :: c in candidates ==> !Preferred(h, c, winner.value) && Specificity(c.scope) <= Specificity(winner.value.scope)
  {
    winner := None;
    for index := 0 to |candidates|
      invariant winner.None? <==> index == 0
      invariant winner.Some? ==> winner.value in candidates
      invariant winner.Some? ==> forall i :: 0 <= i < index ==> !Preferred(h, candidates[i], winner.value)
    {
      var candidate := candidates[index];
      if winner.None? || Preferred(h, candidate, winner.value) {
        forall i | 0 <= i < index ensures !Preferred(h, candidates[i], candidate) {
          PreferredIsStrict(h, candidate, winner.value, candidates[i]);
        }
        PreferredIsStrict(h, candidate, candidate, candidate);
        winner := Some(candidate);
      }
    }
  }

  /** The target does not depend on the order the affected scopes are listed in. */
  lemma TargetForgetsOrder(h: Hashing, a: seq<Candidate>, b: seq<Candidate>, v: Candidate, w: Candidate)
    requires forall c :: c in a <==> c in b
    requires v in a && forall c :: c in a ==> !Preferred(h, c, v)
    requires w in b && forall c :: c in b ==> !Preferred(h, c, w)
    requires forall s, t :: h.scopeHash(s) == h.scopeHash(t) ==> s == t
    ensures v == w
  {
    PreferredIsStrict(h, v, w, v);
  }
}
