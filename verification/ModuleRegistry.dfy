/**
 The append-only module-state registry: lifecycle chain, activation guards, containment, rollback.

 Tables are values and every transaction is a function on them. A caller's head read happens in an
 earlier state of the same trace than its write, so traces cover every interleaving of callers.
 */
module ModuleRegistry {
  import opened Prelude
  import opened TextOrder
  import opened Texts
  import opened GateEvidence

  datatype Position =
    | NotImplemented | Implemented | Available | Shadow | Proven | Active | Degraded | Paused | Retired | Disabled

  /** `LEGAL_LIFECYCLE_TRANSITIONS`. */
  predicate Legal(from: Position, to: Position) {
    match from
    case NotImplemented => to == Implemented
    case Implemented => to in {Available, Shadow, Disabled, Retired}
    case Available => to in {Shadow, Degraded, Paused, Disabled, Retired}
    case Shadow => to in {Proven, Available, Paused, Disabled, Retired}
    case Proven => to in {Active, Paused, Disabled, Retired}
    case Active => to in {Degraded, Paused, Disabled, Retired}
    case Degraded => to in {Active, Paused, Disabled, Retired}
    case Paused => to in {Degraded, Active, Disabled, Retired}
    case Retired => to == Disabled
    case Disabled => to in {Implemented, Available, Shadow, Proven, Degraded, Paused}
  }

  datatype OperationalReadiness = NotReady | ReadyForCollection | ReadyForShadowResearch | ReadyForShadowAlerts | ReadyForActiveProfile

  datatype DistributionReadiness = PrivateOnly | WorkspaceTechnicallyReady | WorkspaceAuthorized | PublicTechnicallyReady | PublicAuthorized

  datatype StateRow = StateRow(id: string, moduleId: string, artifact: string, scope: Scope, scopeHash: string,
                               state: Position, operational: OperationalReadiness, distribution: DistributionReadiness,
                               event: Option<string>, kind: Option<ActivationKind>, supersededBy: Option<string>,
                               createdAt: int)

  datatype Transition = Transition(id: string, rowId: string, from: Position, to: Position, gateRef: Option<string>)

  datatype Containment = Containment(id: string, moduleId: string, scopeHash: string, action: Position,
                                     clearedBy: Option<string>)

  datatype Rollback = Rollback(id: string, moduleId: string, artifact: string, prior: string, next: string)

  datatype Tables = Tables(states: seq<StateRow>, transitions: seq<Transition>, containments: seq<Containment>,
                           rollbacks: seq<Rollback>, evaluations: seq<Row>)

  datatype Refusal =
    | Malformed | ScopeMismatch | GateResultRequired | GateRefused | ProvenEvidenceRequired | IllegalTransition
    | InPlaceMutation | EvidenceRefused(reason: EvidenceRefusal) | DimensionMismatch | ContainmentOpen
    | EventRefMissing | EventConsumed | SupersedeRace | UnknownScope | NotApproved | ConstraintViolated

  // --- texts ----------------------------------------------------------------------------------

  /** The characters `String.prototype.trim` removes. */
  predicate IsSpace(c: char) {
    || 9 <= c as int <= 13 || c as int in {32, 160, 5760, 8232, 8233, 8239, 8287, 12288, 65279}
    || 8192 <= c as int <= 8202
  }

  predicate Blank(s: string) {
    forall i :: 0 <= i < |s| ==> IsSpace(s[i])
  }

  // --- reads ----------------------------------------------------------------------------------

  predicate InScope(row: StateRow, moduleId: string, scope: Scope) {
    row.moduleId == moduleId && row.scope == scope
  }

  /** Row order of a scope read: creation instant, then id. */
  predicate Newer(a: StateRow, b: StateRow) {
    a.createdAt > b.createdAt || (a.createdAt == b.createdAt && Less(b.id, a.id))
  }

  /** `currentStateRow`: the newest row of the scope that nothing supersedes. */
  function Head(states: seq<StateRow>, moduleId: string, scope: Scope): (head: Option<StateRow>)
    ensures head.Some? ==> head.value in states && InScope(head.value, moduleId, scope) && head.value.supersededBy.None?
    ensures head.None? ==>
              forall i :: 0 <= i < |states| && InScope(states[i], moduleId, scope) ==> states[i].supersededBy.Some?
  {
    if states == [] then None
    else
      var row := states[|states| - 1];
      var rest := Head(states[..|states| - 1], moduleId, scope);
      if InScope(row, moduleId, scope) && row.supersededBy.None? && (rest.None? || Newer(row, rest.value)) then Some(row)
      else rest
  }

  predicate Reached(states: seq<StateRow>, moduleId: string, scope: Scope, positions: set<Position>) {
    exists i :: 0 <= i < |states| && InScope(states[i], moduleId, scope) && states[i].state in positions
  }

  const ESTABLISHES_AVAILABLE: set<Position> := {Available, Proven, Active}

  predicate IsImplemented(states: seq<StateRow>, moduleId: string, scope: Scope) {
    exists i :: 0 <= i < |states| && InScope(states[i], moduleId, scope)
  }

  predicate IsAvailable(states: seq<StateRow>, moduleId: string, scope: Scope) {
    Reached(states, moduleId, scope, ESTABLISHES_AVAILABLE)
  }

  predicate IsProven(states: seq<StateRow>, moduleId: string, scope: Scope) {
    Reached(states, moduleId, scope, {Proven})
  }

  predicate Contained(containments: seq<Containment>, moduleId: string, hash: string) {
    exists i :: 0 <= i < |containments| && containments[i].moduleId == moduleId && containments[i].scopeHash == hash
      && containments[i].clearedBy.None?
  }

  predicate Consumed(states: seq<StateRow>, moduleId: string, hash: string, event: string) {
    exists i :: 0 <= i < |states| && states[i].moduleId == moduleId && states[i].scopeHash == hash
      && states[i].state == Active && states[i].event == Some(event)
  }

  predicate ClaimsPass(batch: seq<Row>, gate: GateKind) {
    exists i :: 0 <= i < |batch| && batch[i].gate == gate && batch[i].verdict == Pass
  }

  // --- one advance ----------------------------------------------------------------------------

  /** An evaluator result together with the reference its recording minted, if it was recorded. */
  datatype Claim = Claim(result: GateResult, setRef: Option<string>)

  datatype Advance = Advance(moduleId: string, scope: Scope, artifact: string, to: Position,
                             operational: OperationalReadiness, distribution: DistributionReadiness,
                             currentId: Option<string>, claim: Option<Claim>,
                             provenRef: Option<string>, provenEvent: Option<string>,
                             explicitEvent: Option<Option<string>>, at: int, rowId: string, transitionId: string)

  function FromOf(current: Option<StateRow>): Position {
    if current.Some? then current.value.state else NotImplemented
  }

  /** The checks `advanceState` makes on what it read before it opens its transaction. */
  function Precheck(h: Hashing, input: Advance, current: Option<StateRow>): Option<Refusal> {
    if input.moduleId == "" || !IsContentAddress(input.artifact) || input.to == NotImplemented || input.rowId == "" || input.transitionId == "" then
      Some(Malformed)
    else if input.currentId.Some? && (current.None? || current.value.id != input.currentId.value) then Some(ScopeMismatch)
    else if input.claim.Some? && input.claim.value.result.scopeHash != h.scopeHash(input.scope) then Some(ScopeMismatch)
    else if input.to == Proven && (input.provenRef.None? || !IsContentAddress(input.provenRef.value)
                                   || input.provenEvent.None? || Blank(input.provenEvent.value)) then
      Some(ProvenEvidenceRequired)
    else if input.to == Active && input.claim.None? then Some(GateResultRequired)
    else if input.to == Active && !input.claim.value.result.passed then Some(GateRefused)
    else if input.to == Active && !ReadinessFits(input, input.claim.value.result.kind) then Some(GateRefused)
    else if !Legal(FromOf(current), input.to) then Some(IllegalTransition)
    else None
  }

  /** A readiness claim never exceeds the kind that was evaluated. */
  predicate ReadinessFits(input: Advance, kind: ActivationKind) {
    && (input.distribution == WorkspaceAuthorized ==> kind == Workspace)
    && (input.distribution == PublicAuthorized ==> kind == Public)
    && (input.operational == ReadyForActiveProfile ==> kind != Operational)
  }

  /** The guard inside the transaction for entering PROVEN. */
  function ProvenRefusal(h: Hashing, t: Tables, input: Advance): Option<Refusal>
    requires input.provenRef.Some? && input.provenEvent.Some?
  {
    var hash := h.scopeHash(input.scope);
    var evidence := Guard(h, Select(t.evaluations, hash, Opportunity, input.provenEvent.value), Opportunity, input.scope,
                          input.provenRef.value, input.at);
    if evidence.Err? then Some(EvidenceRefused(evidence.error))
    else if !IsAvailable(t.states, input.moduleId, input.scope) then Some(DimensionMismatch)
    else if ClaimsPass(evidence.value, ImplementedPresent) && !IsImplemented(t.states, input.moduleId, input.scope) then
      Some(DimensionMismatch)
    else None
  }

  /** The guard inside the transaction for entering ACTIVE. */
  function ActiveRefusal(h: Hashing, t: Tables, input: Advance): Option<Refusal>
    requires input.claim.Some?
  {
    var hash := h.scopeHash(input.scope);
    var result := input.claim.value.result;
    if input.scope.requiresProven && !IsProven(t.states, input.moduleId, input.scope) then Some(DimensionMismatch)
    else if Contained(t.containments, input.moduleId, hash) then Some(ContainmentOpen)
    else if Blank(result.event) then Some(EventRefMissing)
    else if Consumed(t.states, input.moduleId, hash, result.event) then Some(EventConsumed)
    else
      var evidence := Guard(h, Select(t.evaluations, hash, result.kind, result.event), result.kind, input.scope,
                            if input.claim.value.setRef.Some? then input.claim.value.setRef.value else "", input.at);
      if evidence.Err? then Some(EvidenceRefused(evidence.error))
      else if || (ClaimsPass(evidence.value, ImplementedPresent) && !IsImplemented(t.states, input.moduleId, input.scope))
              || (ClaimsPass(evidence.value, AvailableEvidence) && !IsAvailable(t.states, input.moduleId, input.scope))
              || (ClaimsPass(evidence.value, ProvenPresent) && !IsProven(t.states, input.moduleId, input.scope)) then
        Some(DimensionMismatch)
      else None
  }

  function EventOf(input: Advance, current: Option<StateRow>): Option<string> {
    if input.to == Active && input.claim.Some? then Some(input.claim.value.result.event)
    else if input.explicitEvent.Some? then input.explicitEvent.value
    else if current.Some? then current.value.event
    else None
  }

  function NewRow(h: Hashing, input: Advance, current: Option<StateRow>): StateRow {
    StateRow(input.rowId, input.moduleId, input.artifact, input.scope, h.scopeHash(input.scope), input.to,
             input.operational, input.distribution, EventOf(input, current),
             if input.to == Active && input.claim.Some? then Some(input.claim.value.result.kind) else None, None, input.at)
  }

  function NewTransition(input: Advance, current: Option<StateRow>): Transition {
    Transition(input.transitionId, input.rowId, FromOf(current), input.to,
               if input.to == Active && input.claim.Some? then input.claim.value.setRef
               else if input.to == Proven then input.provenRef else None)
  }

  function IndexOf(states: seq<StateRow>, id: string): (at: Option<nat>)
    ensures at.Some? ==> at.value < |states| && states[at.value].id == id
    ensures at.None? ==> forall i :: 0 <= i < |states| ==> states[i].id != id
  {
    if states == [] then None
    else if states[|states| - 1].id == id then Some(|states| - 1)
    else IndexOf(states[..|states| - 1], id)
  }

  predicate Logged(transitions: seq<Transition>, id: string) {
    exists i :: 0 <= i < |transitions| && transitions[i].id == id
  }

  function GuardRefusal(h: Hashing, t: Tables, input: Advance): Option<Refusal>
    requires input.to == Proven ==> input.provenRef.Some? && input.provenEvent.Some?
    requires input.to == Active ==> input.claim.Some?
  {
    if input.to == Proven then ProvenRefusal(h, t, input)
    else if input.to == Active then ActiveRefusal(h, t, input)
    else None
  }

  function Superseded(row: StateRow, successor: string): StateRow { row.(supersededBy := Some(successor)) }

  /** The new row, the pointer on its predecessor, and the log entry. */
  function Appended(h: Hashing, t: Tables, input: Advance, current: Option<StateRow>): Result<Tables, Refusal> {
    var row, entry := NewRow(h, input, current), NewTransition(input, current);
    if current.None? then Ok(t.(states := t.states + [row], transitions := t.transitions + [entry]))
    else
      var at := IndexOf(t.states, current.value.id);
      if at.None? || t.states[at.value].supersededBy.Some? then Err(SupersedeRace)
      else Ok(t.(states := t.states[at.value := Superseded(t.states[at.value], row.id)] + [row],
                 transitions := t.transitions + [entry]))
  }

  /**
   The transaction of `advanceState`. `accepted` is the verdict of the table triggers, which read
   the database clock and can only refuse more.
   */
  function Transact(h: Hashing, t: Tables, input: Advance, current: Option<StateRow>, accepted: bool): Result<Tables, Refusal>
    requires Precheck(h, input, current).None?
  {
    if IndexOf(t.states, input.rowId).Some? then Err(InPlaceMutation)
    else
      var refusal := GuardRefusal(h, t, input);
      var event := EventOf(input, current);
      if refusal.Some? then Err(refusal.value)
      else if !accepted || (event.Some? && Blank(event.value)) || Logged(t.transitions, input.transitionId) then
        Err(ConstraintViolated)
      else Appended(h, t, input, current)
  }

  /** `advanceState`: the head comes from `read`, the writes go to `t`. */
  function AdvanceState(h: Hashing, read: Tables, t: Tables, input: Advance, accepted: bool): Result<Tables, Refusal> {
    var current := Head(read.states, input.moduleId, input.scope);
    var refusal := Precheck(h, input, current);
    if refusal.Some? then Err(refusal.value) else Transact(h, t, input, current, accepted)
  }

  // --- containment and rollback ---------------------------------------------------------------

  datatype CriticalGate = Security | Parity | Leakage | Rights | Capacity | Recovery | Calibration | Adversarial | Claims

  /** `CONTAINMENT_ACTION_FOR_CRITICAL_GATE`. */
  function ActionFor(gate: CriticalGate): Position {
    match gate
    case Security | Leakage | Rights | Adversarial | Claims => Disabled
    case Parity | Recovery => Paused
    case Capacity | Calibration => Degraded
  }

  function Severity(action: Position): nat {
    match action
    case Disabled => 2
    case Paused => 1
    case _ => 0
  }

  function Escalate(left: Position, right: Position): Position {
    if Severity(left) >= Severity(right) then left else right
  }

  datatype ContainInput = ContainInput(gate: CriticalGate, minimum: Option<Position>, moduleId: string, scope: Scope,
                                       containmentId: string, at: int)

  function RequestedAction(input: ContainInput): Position {
    if input.minimum.None? then ActionFor(input.gate) else Escalate(ActionFor(input.gate), input.minimum.value)
  }

  function AppliedAction(current: StateRow, requested: Position): Position {
    if Legal(current.state, requested) then requested else Disabled
  }

  function ContainAdvance(input: ContainInput, current: StateRow): Advance {
    Advance(input.moduleId, input.scope, current.artifact, AppliedAction(current, RequestedAction(input)),
            current.operational, current.distribution, Some(current.id), None, None, None, None, input.at,
            input.containmentId + "-state", input.containmentId + "-transition")
  }

  predicate ContainmentExists(containments: seq<Containment>, id: string) {
    exists i :: 0 <= i < |containments| && containments[i].id == id
  }

  /** `containForFailedGate` on its resolved target: reads, records and advances in one transaction. */
  function Contain(h: Hashing, t: Tables, input: ContainInput, accepted: bool): Result<Tables, Refusal> {
    var current := Head(t.states, input.moduleId, input.scope);
    if input.minimum.Some? && input.minimum.value !in {Degraded, Paused, Disabled} then Err(Malformed)
    else if current.None? then Err(UnknownScope)
    else if input.containmentId == "" || ContainmentExists(t.containments, input.containmentId) then Err(ConstraintViolated)
    else
      var row := Containment(input.containmentId, input.moduleId, h.scopeHash(input.scope),
                             AppliedAction(current.value, RequestedAction(input)), None);
      var t' := t.(containments := t.containments + [row]);
      AdvanceState(h, t', t', ContainAdvance(input, current.value), accepted)
  }

  function ClearAt(containments: seq<Containment>, id: string, event: string): Option<seq<Containment>> {
    if containments == [] then None
    else
      var last := containments[|containments| - 1];
      if last.id == id && last.clearedBy.None? then
        Some(containments[|containments| - 1 := last.(clearedBy := Some(event))])
      else
        var rest := ClearAt(containments[..|containments| - 1], id, event);
        if rest.None? then None else Some(rest.value + [last])
  }

  /** `clearContainment`: the one-time pointer. */
  function Clear(t: Tables, id: string, event: string): Result<Tables, Refusal> {
    if forall i :: 0 <= i < |event| ==> event[i] == ' ' then Err(GateRefused)
    else
      var cleared := ClearAt(t.containments, id, event);
      if cleared.None? then Err(GateRefused) else Ok(t.(containments := cleared.value))
  }

  datatype RollbackInput = RollbackInput(moduleId: string, scope: Scope, artifact: string, prior: string, next: string,
                                         reevaluation: string, rollbackId: string, at: int)

  predicate Approved(states: seq<StateRow>, input: RollbackInput) {
    exists i :: 0 <= i < |states| && InScope(states[i], input.moduleId, input.scope) && states[i].artifact == input.artifact
      && states[i].event == Some(input.prior) && states[i].state == Active
  }

  function RollbackAdvance(input: RollbackInput, current: StateRow): Advance {
    Advance(input.moduleId, input.scope, input.artifact, if Legal(current.state, Paused) then Paused else Disabled,
            current.operational, current.distribution, Some(current.id), None, None, None, Some(Some(input.next)), input.at,
            input.rollbackId + "-state", input.rollbackId + "-transition")
  }

  predicate RollbackClashes(rollbacks: seq<Rollback>, input: RollbackInput) {
    exists i :: 0 <= i < |rollbacks| && (rollbacks[i].id == input.rollbackId || rollbacks[i].next == input.next)
  }

  /** `rollbackToApproved`: approval and head are read first, everything is written in one transaction. */
  function RollBack(h: Hashing, read: Tables, t: Tables, input: RollbackInput, accepted: bool): Result<Tables, Refusal> {
    var current := Head(read.states, input.moduleId, input.scope);
    if !IsContentAddress(input.artifact) || input.prior == "" || input.next == "" || input.reevaluation == "" || input.next == input.prior then
      Err(Malformed)
    else if !Approved(read.states, input) then Err(NotApproved)
    else if current.None? then Err(UnknownScope)
    else if Contained(t.containments, input.moduleId, h.scopeHash(input.scope)) then Err(ContainmentOpen)
    else if RollbackClashes(t.rollbacks, input) then Err(ConstraintViolated)
    else
      var row := Rollback(input.rollbackId, input.moduleId, input.artifact, input.prior, input.next);
      var t' := t.(rollbacks := t.rollbacks + [row]);
      AdvanceState(h, t', t', RollbackAdvance(input, current.value), accepted)
  }

  // --- traces ---------------------------------------------------------------------------------

  datatype Step =
    | DoAdvance(input: Advance, readAt: nat, accepted: bool)
    | DoContain(contain: ContainInput, accepted: bool)
    | DoClear(id: string, event: string)
    | DoRollback(rollback: RollbackInput, readAt: nat, accepted: bool)
    | DoRecord(result: GateResult)

  function Outcome(h: Hashing, read: Tables, t: Tables, step: Step): Result<Tables, Refusal> {
    match step
    case DoAdvance(input, _, accepted) => AdvanceState(h, read, t, input, accepted)
    case DoContain(input, accepted) => Contain(h, t, input, accepted)
    case DoClear(id, event) => Clear(t, id, event)
    case DoRollback(input, _, accepted) => RollBack(h, read, t, input, accepted)
    case DoRecord(result) =>
      var recorded := Persist(h, t.evaluations, result);
      if recorded.None? then Err(ConstraintViolated) else Ok(t.(evaluations := recorded.value.0))
  }

  /** The state a step reads its head from: its own, unless it read before its transaction. */
  function ReadIndex(step: Step, now: nat): nat {
    match step
    case DoAdvance(_, readAt, _) => if readAt <= now then readAt else now
    case DoRollback(_, readAt, _) => if readAt <= now then readAt else now
    case _ => now
  }

  const EMPTY: Tables := Tables([], [], [], [], [])

  predicate Committed(h: Hashing, trace: seq<Tables>, steps: seq<Step>, k: nat)
    requires k < |steps| < |trace|
  {
    Outcome(h, trace[ReadIndex(steps[k], k)], trace[k], steps[k]).Ok?
  }

  /** A trace of committed and refused steps by any number of callers. */
  predicate IsTrace(h: Hashing, trace: seq<Tables>, steps: seq<Step>) {
    && |trace| == |steps| + 1
    && trace[0] == EMPTY
    && forall k :: 0 <= k < |steps| ==> Follows(h, trace, steps, k)
  }

  predicate Follows(h: Hashing, trace: seq<Tables>, steps: seq<Step>, k: int)
    requires |trace| == |steps| + 1 && 0 <= k < |steps|
  {
    trace[k + 1] == Next(h, trace[ReadIndex(steps[k], k)], trace[k], steps[k])
  }

  /** A refused step leaves every table as it was. */
  function Next(h: Hashing, read: Tables, t: Tables, step: Step): Tables {
    var outcome := Outcome(h, read, t, step);
    if outcome.Ok? then outcome.value else t
  }

  // --- what one step does to the chain ---------------------------------------------------------

  /** The advance a step performs and the tables it reads its head from. */
  function InsertOf(read: Tables, t: Tables, step: Step): Option<(Advance, Tables)> {
    match step
    case DoAdvance(input, _, _) => Some((input, read))
    case DoContain(input, _) =>
      var current := Head(t.states, input.moduleId, input.scope);
      if current.None? then None else Some((ContainAdvance(input, current.value), t))
    case DoRollback(input, _, _) =>
      var current := Head(read.states, input.moduleId, input.scope);
      if current.None? then None else Some((RollbackAdvance(input, current.value), t))
    case _ => None
  }

  predicate Inserted(h: Hashing, t: Tables, adv: Advance, current: Option<StateRow>, t': Tables) {
    && Precheck(h, adv, current).None?
    && IndexOf(t.states, adv.rowId).None?
    && GuardRefusal(h, t, adv).None?
    && Appended(h, t, adv, current).Ok?
    && t'.states == Appended(h, t, adv, current).value.states
    && t'.transitions == Appended(h, t, adv, current).value.transitions
  }

  lemma StepShape(h: Hashing, read: Tables, t: Tables, step: Step)
    requires Outcome(h, read, t, step).Ok?
    ensures var t' := Outcome(h, read, t, step).value;
            match InsertOf(read, t, step)
            case Some((adv, source)) => Inserted(h, t, adv, Head(source.states, adv.moduleId, adv.scope), t')
            case None => t'.states == t.states && t'.transitions == t.transitions
  {
  }

  // --- growth ---------------------------------------------------------------------------------

  /** Equal in every column but the supersede pointer. */
  predicate SameButPointer(a: StateRow, b: StateRow) {
    a.(supersededBy := None) == b.(supersededBy := None)
  }

  /** Nothing is rewritten or removed: only pointers that were empty may be set. */
  predicate Extends(t: Tables, t': Tables) {
    && |t.states| <= |t'.states|
    && (forall i :: 0 <= i < |t.states| ==>
          && SameButPointer(t.states[i], t'.states[i])
          && (t.states[i].supersededBy.Some? ==> t'.states[i].supersededBy == t.states[i].supersededBy))
    && t.transitions <= t'.transitions
    && t.rollbacks <= t'.rollbacks
    && t.evaluations <= t'.evaluations
  }

  lemma StepExtends(h: Hashing, read: Tables, t: Tables, step: Step)
    requires Outcome(h, read, t, step).Ok?
    ensures Extends(t, Outcome(h, read, t, step).value)
  {
    var t' := Outcome(h, read, t, step).value;
    StepShape(h, read, t, step);
    SideTablesGrow(h, read, t, step);
    match InsertOf(read, t, step)
    case Some((adv, source)) => InsertExtends(h, t, adv, Head(source.states, adv.moduleId, adv.scope), t');
    case None =>
  }

  lemma SideTablesGrow(h: Hashing, read: Tables, t: Tables, step: Step)
    requires Outcome(h, read, t, step).Ok?
    ensures t.rollbacks <= Outcome(h, read, t, step).value.rollbacks
    ensures t.evaluations <= Outcome(h, read, t, step).value.evaluations
  {
  }

  lemma InsertExtends(h: Hashing, t: Tables, adv: Advance, current: Option<StateRow>, t': Tables)
    requires Inserted(h, t, adv, current, t')
    ensures |t'.states| == |t.states| + 1 && t.transitions <= t'.transitions
    ensures forall i :: 0 <= i < |t.states| ==>
              && SameButPointer(t.states[i], t'.states[i])
              && (t.states[i].supersededBy.Some? ==> t'.states[i].supersededBy == t.states[i].supersededBy)
  {
    if current.Some? {
      var at := IndexOf(t.states, current.value.id).value;
      assert forall i :: 0 <= i < |t.states| && i != at ==> t'.states[i] == t.states[i];
    } else {
      assert forall i :: 0 <= i < |t.states| ==> t'.states[i] == t.states[i];
    }
  }

  lemma ExtendsTransitive(a: Tables, b: Tables, c: Tables)
    requires Extends(a, b) && Extends(b, c)
    ensures Extends(a, c)
  {
  }

  lemma NextExtends(h: Hashing, read: Tables, t: Tables, step: Step)
    ensures Extends(t, Next(h, read, t, step))
  {
    if Outcome(h, read, t, step).Ok? {
      StepExtends(h, read, t, step);
    }
  }

  lemma TraceStep(h: Hashing, trace: seq<Tables>, steps: seq<Step>, k: nat)
    requires IsTrace(h, trace, steps) && k < |steps|
    ensures ReadIndex(steps[k], k) <= k && trace[k + 1] == Next(h, trace[ReadIndex(steps[k], k)], trace[k], steps[k])
  {
    assert Follows(h, trace, steps, k);
  }

  /** History is append-only over any stretch of any trace. */
  lemma {:induction false} HistoryPreserved(h: Hashing, trace: seq<Tables>, steps: seq<Step>, i: nat, j: nat)
    requires IsTrace(h, trace, steps) && i <= j < |trace|
    ensures Extends(trace[i], trace[j])
    decreases j
  {
    if i < j {
      HistoryPreserved(h, trace, steps, i, j - 1);
      TraceExtends(h, trace, steps, j - 1);
      ExtendsTransitive(trace[i], trace[j - 1], trace[j]);
    }
  }

  lemma TraceExtends(h: Hashing, trace: seq<Tables>, steps: seq<Step>, k: nat)
    requires IsTrace(h, trace, steps) && k < |steps|
    ensures Extends(trace[k], trace[k + 1])
  {
    TraceStep(h, trace, steps, k);
    NextExtends(h, trace[ReadIndex(steps[k], k)], trace[k], steps[k]);
  }

  // --- the invariant --------------------------------------------------------------------------

  predicate UniqueIds(states: seq<StateRow>) {
    forall i, j :: 0 <= i < j < |states| ==> states[i].id != states[j].id
  }

  predicate SameScope(a: StateRow, b: StateRow) {
    a.moduleId == b.moduleId && a.scope == b.scope
  }

  /** Entry `i` of the log belongs to row `i`. */
  predicate LogMatches(t: Tables) {
    && |t.transitions| == |t.states|
    && forall i :: 0 <= i < |t.states| ==>
         && t.transitions[i].rowId == t.states[i].id
         && t.transitions[i].to == t.states[i].state
         && Legal(t.transitions[i].from, t.states[i].state)
         && t.states[i].state != NotImplemented
  }

  predicate Precedes(states: seq<StateRow>, j: nat, i: nat)
    requires j < |states| && i < |states|
  {
    states[j].supersededBy == Some(states[i].id)
  }

  /** A pointer leads to a later row of the same scope whose log names the true predecessor state. */
  predicate LinkedTo(t: Tables, j: nat, i: nat)
    requires |t.transitions| == |t.states| && j < |t.states| && i < |t.states|
  {
    j < i && Precedes(t.states, j, i) && SameScope(t.states[j], t.states[i]) && t.transitions[i].from == t.states[j].state
  }

  predicate Linked(t: Tables)
    requires |t.transitions| == |t.states|
  {
    forall j :: 0 <= j < |t.states| && t.states[j].supersededBy.Some? ==> exists i :: 0 <= i < |t.states| && LinkedTo(t, j, i)
  }

  /** No two rows are superseded by the same row. */
  predicate NoSharedSuccessor(states: seq<StateRow>) {
    forall i, j :: 0 <= i < j < |states| && states[i].supersededBy.Some? ==> states[i].supersededBy != states[j].supersededBy
  }

  predicate IsRoot(t: Tables, i: nat)
    requires |t.transitions| == |t.states| && i < |t.states|
  {
    t.transitions[i].from == NotImplemented
  }

  /** Exactly the rows logged from NOT_IMPLEMENTED have no predecessor. */
  predicate RootsHaveNoPredecessor(t: Tables)
    requires |t.transitions| == |t.states|
  {
    forall i :: 0 <= i < |t.states| ==>
      (IsRoot(t, i) <==> forall j :: 0 <= j < |t.states| ==> !Precedes(t.states, j, i))
  }

  predicate Chained(t: Tables) {
    UniqueIds(t.states) && LogMatches(t) && Linked(t) && NoSharedSuccessor(t.states) && RootsHaveNoPredecessor(t)
  }

  lemma AppendKeepsIds(h: Hashing, t: Tables, adv: Advance, current: Option<StateRow>, t': Tables)
    requires Inserted(h, t, adv, current, t') && UniqueIds(t.states)
    ensures UniqueIds(t'.states)
  {
  }

  /** The row a caller read is still in the table, up to its pointer. */
  predicate StillThere(states: seq<StateRow>, current: Option<StateRow>) {
    current.Some? ==> exists i :: 0 <= i < |states| && SameButPointer(states[i], current.value)
  }

  lemma PredecessorIs(t: Tables, current: StateRow)
    requires UniqueIds(t.states) && StillThere(t.states, Some(current)) && IndexOf(t.states, current.id).Some?
    ensures SameButPointer(t.states[IndexOf(t.states, current.id).value], current)
  {
    var i :| 0 <= i < |t.states| && SameButPointer(t.states[i], current);
    var at := IndexOf(t.states, current.id).value;
    assert t.states[i].id == t.states[at].id;
  }

  lemma AppendKeepsChain(h: Hashing, t: Tables, adv: Advance, current: Option<StateRow>, t': Tables)
    requires Inserted(h, t, adv, current, t') && Chained(t) && StillThere(t.states, current)
    requires current.Some? ==> InScope(current.value, adv.moduleId, adv.scope)
    ensures Chained(t')
  {
    AppendKeepsIds(h, t, adv, current, t');
    var n := |t.states|;
    assert t'.transitions[..n] == t.transitions;
    assert LogMatches(t');
    if current.None? {
      FreshIsNoSuccessor(t, adv.rowId);
      RootAppend(t, t');
    } else {
      PredecessorIs(t, current.value);
      var at := IndexOf(t.states, current.value.id).value;
      LinkAppend(t, t', at);
    }
  }

  /** A row appended without predecessor starts a chain of its own. */
  lemma RootAppend(t: Tables, t': Tables)
    requires Chained(t) && UniqueIds(t'.states) && LogMatches(t')
    requires |t'.states| == |t.states| + 1 && t'.states[..|t.states|] == t.states && t'.transitions[..|t.states|] == t.transitions
    requires t'.states[|t.states|].supersededBy.None? && IsRoot(t', |t.states|)
    requires forall j :: 0 <= j < |t.states| ==> t.states[j].supersededBy != Some(t'.states[|t.states|].id)
    ensures Chained(t')
  {
    var n := |t.states|;
    assert forall j :: 0 <= j < n ==> t'.states[j] == t.states[j] && t'.transitions[j] == t.transitions[j];
    forall j | 0 <= j < n + 1 && t'.states[j].supersededBy.Some? ensures exists i :: 0 <= i < n + 1 && LinkedTo(t', j, i) {
      var i :| 0 <= i < n && LinkedTo(t, j, i);
      assert LinkedTo(t', j, i);
    }
    forall i | 0 <= i < n + 1
      ensures IsRoot(t', i) <==> forall j :: 0 <= j < n + 1 ==> !Precedes(t'.states, j, i)
    {
      if i < n {
        assert IsRoot(t, i) <==> forall j :: 0 <= j < n ==> !Precedes(t.states, j, i);
        assert forall j :: 0 <= j < n ==> (Precedes(t'.states, j, i) <==> Precedes(t.states, j, i));
      }
    }
  }

  /** Pointers lead to rows of the table, so a fresh id is nobody's successor. */
  lemma FreshIsNoSuccessor(t: Tables, id: string)
    requires Chained(t) && forall i :: 0 <= i < |t.states| ==> t.states[i].id != id
    ensures forall j :: 0 <= j < |t.states| ==> t.states[j].supersededBy != Some(id)
  {
    forall j | 0 <= j < |t.states| ensures t.states[j].supersededBy != Some(id) {
      if t.states[j].supersededBy.Some? {
        var i :| 0 <= i < |t.states| && LinkedTo(t, j, i);
      }
    }
  }

  /** A row appended behind the unsuperseded row `at` extends the chain that ended there. */
  lemma LinkAppend(t: Tables, t': Tables, at: nat)
    requires Chained(t) && UniqueIds(t'.states) && LogMatches(t')
    requires at < |t.states| && t.states[at].supersededBy.None?
    requires |t'.states| == |t.states| + 1 && t'.transitions[..|t.states|] == t.transitions
    requires t'.states[..|t.states|] == t.states[at := Superseded(t.states[at], t'.states[|t.states|].id)]
    requires t'.states[|t.states|].supersededBy.None? && SameScope(t.states[at], t'.states[|t.states|])
    requires t'.transitions[|t.states|].from == t.states[at].state
    requires forall j :: 0 <= j < |t.states| ==> t.states[j].id != t'.states[|t.states|].id
    ensures Chained(t')
  {
    var n := |t.states|;
    FreshIsNoSuccessor(t, t'.states[n].id);
    assert forall j :: 0 <= j < n ==>
      SameButPointer(t'.states[j], t.states[j]) && t'.states[j].id == t.states[j].id && t'.transitions[j] == t.transitions[j];
    assert forall j :: 0 <= j < n && j != at ==> t'.states[j] == t.states[j];
    assert t'.states[at].supersededBy == Some(t'.states[n].id);
    assert LinkedTo(t', at, n);
    LinkKeepsLinks(t, t', at);
    LinkKeepsRoots(t, t', at);
  }

  predicate Relinked(t: Tables, t': Tables, at: nat) {
    var n := |t.states|;
    && |t.transitions| == n && |t'.transitions| == |t'.states| == n + 1 && at < n
    && (forall j :: 0 <= j < n ==>
          SameButPointer(t'.states[j], t.states[j]) && t'.states[j].id == t.states[j].id && t'.transitions[j] == t.transitions[j])
    && (forall j :: 0 <= j < n && j != at ==> t'.states[j] == t.states[j])
    && t.states[at].supersededBy.None? && t'.states[at].supersededBy == Some(t'.states[n].id) && t'.states[n].supersededBy.None?
    && (forall j :: 0 <= j < n ==> t.states[j].supersededBy != Some(t'.states[n].id) && t.states[j].id != t'.states[n].id)
  }

  lemma LinkKeepsLinks(t: Tables, t': Tables, at: nat)
    requires Chained(t) && Relinked(t, t', at) && LinkedTo(t', at, |t.states|)
    ensures Linked(t') && NoSharedSuccessor(t'.states)
  {
    var n := |t.states|;
    forall j | 0 <= j < n + 1 && t'.states[j].supersededBy.Some? ensures exists i :: 0 <= i < n + 1 && LinkedTo(t', j, i) {
      if j == at {
        assert LinkedTo(t', at, n);
      } else {
        var i :| 0 <= i < n && LinkedTo(t, j, i);
        assert LinkedTo(t', j, i);
      }
    }
  }

  lemma LinkKeepsRoots(t: Tables, t': Tables, at: nat)
    requires Chained(t) && Relinked(t, t', at) && UniqueIds(t'.states) && LogMatches(t')
    requires t'.transitions[|t.states|].from == t.states[at].state
    ensures RootsHaveNoPredecessor(t')
  {
    var n := |t.states|;
    forall i | 0 <= i < n + 1
      ensures IsRoot(t', i) <==> forall j :: 0 <= j < n + 1 ==> !Precedes(t'.states, j, i)
    {
      if i == n {
        assert Precedes(t'.states, at, n);
      } else {
        LinkKeepsRoot(t, t', at, i);
      }
    }
  }

  lemma LinkKeepsRoot(t: Tables, t': Tables, at: nat, i: nat)
    requires RootsMatch(t) && Relinked(t, t', at) && i < |t.states|
    ensures IsRoot(t', i) <==> forall j :: 0 <= j < |t'.states| ==> !Precedes(t'.states, j, i)
  {
    assert IsRoot(t, i) <==> forall j :: 0 <= j < |t.states| ==> !Precedes(t.states, j, i);
    LinkKeepsPredecessors(t, t', at, i);
  }

  predicate RootsMatch(t: Tables) { |t.transitions| == |t.states| && RootsHaveNoPredecessor(t) }

  lemma LinkKeepsPredecessors(t: Tables, t': Tables, at: nat, i: nat)
    requires Relinked(t, t', at) && i < |t.states|
    ensures forall j :: 0 <= j < |t.states| ==> (Precedes(t'.states, j, i) <==> Precedes(t.states, j, i))
    ensures !Precedes(t'.states, |t.states|, i)
  {
    assert t.states[i].id != t'.states[|t.states|].id && t'.states[i].id == t.states[i].id;
  }

  // --- activation laws ------------------------------------------------------------------------

  predicate EarlierInScope(states: seq<StateRow>, i: nat, position: Position)
    requires i < |states|
  {
    exists j :: 0 <= j < i && SameScope(states[j], states[i]) && states[j].state == position
  }

  /** Every PROVEN or ACTIVE row comes after an AVAILABLE row of its scope. */
  predicate AvailableFirst(states: seq<StateRow>) {
    forall i :: 0 <= i < |states| && states[i].state in {Proven, Active} ==> EarlierInScope(states, i, Available)
  }

  /** Every ACTIVE row of a scope that requires PROVEN comes after a PROVEN row of it. */
  predicate ProvenFirst(states: seq<StateRow>) {
    forall i :: 0 <= i < |states| && states[i].state == Active && states[i].scope.requiresProven ==> EarlierInScope(states, i, Proven)
  }

  /** No activation event backs two ACTIVE rows of one scope, and none is blank. */
  predicate EventsUsedOnce(states: seq<StateRow>) {
    && (forall i :: 0 <= i < |states| && states[i].state == Active ==> states[i].event.Some? && !Blank(states[i].event.value))
    && (forall i, j ::
          (0 <= i < j < |states| && states[i].state == Active && states[j].state == Active && SameScope(states[i], states[j])) ==>
            states[i].event != states[j].event)
  }

  predicate Hashed(h: Hashing, states: seq<StateRow>) {
    forall i :: 0 <= i < |states| ==> states[i].scopeHash == h.scopeHash(states[i].scope)
  }

  predicate Lawful(h: Hashing, states: seq<StateRow>) {
    AvailableFirst(states) && ProvenFirst(states) && EventsUsedOnce(states) && Hashed(h, states)
  }

  /** An accepted evidence set always claims the AVAILABLE gate. */
  lemma AcceptedClaimsAvailable(h: Hashing, selected: seq<Row>, kind: ActivationKind, scope: Scope, ref: string, at: int)
    requires Guard(h, selected, kind, scope, ref, at).Ok?
    ensures ClaimsPass(Guard(h, selected, kind, scope, ref, at).value, AvailableEvidence)
  {
    GuardAcceptsIff(h, selected, kind, scope, ref, at);
    var batch := Guard(h, selected, kind, scope, ref, at).value;
    assert Once(batch, AvailableEvidence);
    var i :| 0 <= i < |batch| && batch[i].gate == AvailableEvidence;
    assert Exact(batch[i], kind, scope, at);
  }

  /** Both guarded entries need the AVAILABLE dimension; ACTIVE also a fresh event and, if asked, PROVEN. */
  lemma GuardedEntry(h: Hashing, t: Tables, adv: Advance)
    requires adv.to == Proven ==> adv.provenRef.Some? && adv.provenEvent.Some?
    requires adv.to == Active ==> adv.claim.Some?
    requires adv.to in {Proven, Active} && GuardRefusal(h, t, adv).None?
    ensures IsAvailable(t.states, adv.moduleId, adv.scope)
    ensures adv.to == Active ==>
              && !Contained(t.containments, adv.moduleId, h.scopeHash(adv.scope))
              && !Blank(adv.claim.value.result.event)
              && !Consumed(t.states, adv.moduleId, h.scopeHash(adv.scope), adv.claim.value.result.event)
              && (adv.scope.requiresProven ==> IsProven(t.states, adv.moduleId, adv.scope))
  {
    if adv.to == Active {
      var hash, result := h.scopeHash(adv.scope), adv.claim.value.result;
      AcceptedClaimsAvailable(h, Select(t.evaluations, hash, result.kind, result.event), result.kind, adv.scope,
                              if adv.claim.value.setRef.Some? then adv.claim.value.setRef.value else "", adv.at);
    }
  }

  lemma EstablishedByAvailable(states: seq<StateRow>, moduleId: string, scope: Scope)
    requires AvailableFirst(states) && IsAvailable(states, moduleId, scope)
    ensures exists j :: 0 <= j < |states| && InScope(states[j], moduleId, scope) && states[j].state == Available
  {
    var i :| 0 <= i < |states| && InScope(states[i], moduleId, scope) && states[i].state in ESTABLISHES_AVAILABLE;
    if states[i].state != Available {
      var j :| 0 <= j < i && SameScope(states[j], states[i]) && states[j].state == Available;
    }
  }

  /** Laws about states, scopes and events do not see pointers. */
  lemma AppendKeepsLaws(h: Hashing, t: Tables, adv: Advance, current: Option<StateRow>, t': Tables)
    requires Inserted(h, t, adv, current, t') && Lawful(h, t.states)
    ensures Lawful(h, t'.states)
  {
    AppendKeepsAvailableFirst(h, t, adv, current, t');
    AppendKeepsProvenFirst(h, t, adv, current, t');
    AppendKeepsEvents(h, t, adv, current, t');
  }

  lemma AppendKeepsAvailableFirst(h: Hashing, t: Tables, adv: Advance, current: Option<StateRow>, t': Tables)
    requires Inserted(h, t, adv, current, t') && AvailableFirst(t.states)
    ensures AvailableFirst(t'.states)
  {
    InsertExtends(h, t, adv, current, t');
    var n := |t.states|;
    assert t'.states[n] == NewRow(h, adv, current);
    forall i | 0 <= i < n + 1 && t'.states[i].state in {Proven, Active} ensures EarlierInScope(t'.states, i, Available) {
      if i < n {
        assert SameButPointer(t.states[i], t'.states[i]);
        assert EarlierInScope(t.states, i, Available);
        var j :| 0 <= j < i && SameScope(t.states[j], t.states[i]) && t.states[j].state == Available;
        assert SameScope(t'.states[j], t'.states[i]) && t'.states[j].state == Available;
      } else {
        GuardedEntry(h, t, adv);
        EstablishedByAvailable(t.states, adv.moduleId, adv.scope);
        var j :| 0 <= j < n && InScope(t.states[j], adv.moduleId, adv.scope) && t.states[j].state == Available;
        assert SameScope(t'.states[j], t'.states[n]) && t'.states[j].state == Available;
      }
    }
  }

  lemma AppendKeepsProvenFirst(h: Hashing, t: Tables, adv: Advance, current: Option<StateRow>, t': Tables)
    requires Inserted(h, t, adv, current, t') && ProvenFirst(t.states)
    ensures ProvenFirst(t'.states)
  {
    InsertExtends(h, t, adv, current, t');
    var n := |t.states|;
    assert t'.states[n] == NewRow(h, adv, current);
    forall i | 0 <= i < n + 1 && t'.states[i].state == Active && t'.states[i].scope.requiresProven
      ensures EarlierInScope(t'.states, i, Proven)
    {
      if i < n {
        assert EarlierInScope(t.states, i, Proven);
        var j :| 0 <= j < i && SameScope(t.states[j], t.states[i]) && t.states[j].state == Proven;
        assert SameScope(t'.states[j], t'.states[i]) && t'.states[j].state == Proven;
      } else {
        GuardedEntry(h, t, adv);
        var j :| 0 <= j < n && InScope(t.states[j], adv.moduleId, adv.scope) && t.states[j].state in {Proven};
        assert SameScope(t'.states[j], t'.states[n]) && t'.states[j].state == Proven;
      }
    }
  }

  lemma AppendKeepsEvents(h: Hashing, t: Tables, adv: Advance, current: Option<StateRow>, t': Tables)
    requires Inserted(h, t, adv, current, t') && EventsUsedOnce(t.states) && Hashed(h, t.states)
    ensures EventsUsedOnce(t'.states) && Hashed(h, t'.states)
  {
    InsertExtends(h, t, adv, current, t');
    var n := |t.states|;
    assert t'.states[n] == NewRow(h, adv, current);
    if adv.to == Active {
      GuardedEntry(h, t, adv);
    }
  }

  // --- every reachable state ------------------------------------------------------------------

  predicate Invariant(h: Hashing, t: Tables) {
    Chained(t) && Lawful(h, t.states)
  }

  lemma StepKeepsInvariant(h: Hashing, read: Tables, t: Tables, step: Step)
    requires Invariant(h, t) && Extends(read, t) && Outcome(h, read, t, step).Ok?
    ensures Invariant(h, Outcome(h, read, t, step).value)
  {
    var t' := Outcome(h, read, t, step).value;
    StepShape(h, read, t, step);
    match InsertOf(read, t, step)
    case Some((adv, source)) =>
      var current := Head(source.states, adv.moduleId, adv.scope);
      HeadStillThere(source, t, adv.moduleId, adv.scope);
      AppendKeepsChain(h, t, adv, current, t');
      AppendKeepsLaws(h, t, adv, current, t');
    case None =>
      SameStatesSameChain(t, t');
  }

  lemma SameStatesSameChain(t: Tables, t': Tables)
    requires Chained(t) && t'.states == t.states && t'.transitions == t.transitions
    ensures Chained(t')
  {
    forall j | 0 <= j < |t.states| && t.states[j].supersededBy.Some? ensures exists i :: 0 <= i < |t.states| && LinkedTo(t', j, i) {
      var i :| 0 <= i < |t.states| && LinkedTo(t, j, i);
      assert LinkedTo(t', j, i);
    }
    forall i | 0 <= i < |t.states|
      ensures IsRoot(t', i) <==> forall j :: 0 <= j < |t.states| ==> !Precedes(t'.states, j, i)
    {
      assert IsRoot(t, i) <==> forall j :: 0 <= j < |t.states| ==> !Precedes(t.states, j, i);
    }
  }

  lemma HeadStillThere(read: Tables, t: Tables, moduleId: string, scope: Scope)
    requires Extends(read, t) || read == t
    ensures StillThere(t.states, Head(read.states, moduleId, scope))
  {
    var head := Head(read.states, moduleId, scope);
    if head.Some? {
      var i :| 0 <= i < |read.states| && read.states[i] == head.value;
      assert SameButPointer(t.states[i], head.value);
    }
  }

  lemma NextKeepsInvariant(h: Hashing, read: Tables, t: Tables, step: Step)
    requires Invariant(h, t) && Extends(read, t)
    ensures Invariant(h, Next(h, read, t, step))
  {
    if Outcome(h, read, t, step).Ok? {
      StepKeepsInvariant(h, read, t, step);
    }
  }

  /** The invariant holds at every point of every trace. */
  lemma {:induction false} ReachableIsLawful(h: Hashing, trace: seq<Tables>, steps: seq<Step>, k: nat)
    requires IsTrace(h, trace, steps) && k < |trace|
    ensures Invariant(h, trace[k])
  {
    if k == 0 {
      EmptyIsLawful(h);
    } else {
      ReachableIsLawful(h, trace, steps, k - 1);
      TraceKeepsInvariant(h, trace, steps, k - 1);
    }
  }

  lemma TraceKeepsInvariant(h: Hashing, trace: seq<Tables>, steps: seq<Step>, k: nat)
    requires IsTrace(h, trace, steps) && k < |steps| && Invariant(h, trace[k])
    ensures Invariant(h, trace[k + 1])
  {
    TraceStep(h, trace, steps, k);
    HistoryPreserved(h, trace, steps, ReadIndex(steps[k], k), k);
    NextKeepsInvariant(h, trace[ReadIndex(steps[k], k)], trace[k], steps[k]);
  }

  lemma EmptyIsLawful(h: Hashing)
    ensures Invariant(h, EMPTY)
  {
  }
}
