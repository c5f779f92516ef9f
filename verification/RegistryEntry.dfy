/**
 When the registry's writes commit, and what they leave behind: conditions on the caller's input and
 on the rows of the tables, independent of how the checks are ordered and shared.
 */
module RegistryEntry {
  import opened Prelude
  import opened Texts
  import opened TextOrder
  import opened GateEvidence
  import opened ActivationLaws
  import opened ModuleRegistry

  // --- the lifecycle, by where a position is entered from --------------------------------------------

  function EnteredFrom(to: Position): set<Position> {
    match to
    case NotImplemented => {}
    case Implemented => {NotImplemented, Disabled}
    case Available => {Implemented, Shadow, Disabled}
    case Shadow => {Implemented, Available, Disabled}
    case Proven => {Shadow, Disabled}
    case Active => {Proven, Degraded, Paused}
    case Degraded => {Available, Active, Paused, Disabled}
    case Paused => {Available, Shadow, Proven, Active, Degraded, Disabled}
    case Retired => {Implemented, Available, Shadow, Proven, Active, Degraded, Paused}
    case Disabled => {Implemented, Available, Shadow, Proven, Active, Degraded, Paused, Retired}
  }

  /** The transition table read by target. */
  lemma LegalIffEntered(from: Position, to: Position)
    ensures Legal(from, to) <==> from in EnteredFrom(to)
  {
  }

  // --- the head -----------------------------------------------------------------------------------

  /** `x` was created later than `y`, or at the same instant under an id that is not smaller. */
  predicate NotOlder(x: StateRow, y: StateRow) {
    y.createdAt < x.createdAt || (y.createdAt == x.createdAt && !Less(x.id, y.id))
  }

  /** An unsuperseded row of the scope that no other unsuperseded row of the scope comes after. */
  predicate IsHead(states: seq<StateRow>, moduleId: string, scope: Scope, x: StateRow) {
    && x in states && InScope(x, moduleId, scope) && x.supersededBy.None?
    && forall y :: y in states && InScope(y, moduleId, scope) && y.supersededBy.None? ==> NotOlder(x, y)
  }

  lemma NotOlderOrder(x: StateRow, y: StateRow, z: StateRow)
    ensures NotOlder(x, x) && NotOlder(x, y) == !Newer(y, x)
    ensures Newer(x, y) && NotOlder(y, z) ==> NotOlder(x, z)
  {
    LessTrichotomy(x.id, x.id);
    if Newer(x, y) && NotOlder(y, z) && !NotOlder(x, z) {
      LessTransitive(y.id, x.id, z.id);
    }
  }

  lemma HeadOfLonger(states: seq<StateRow>, moduleId: string, scope: Scope, x: StateRow, last: StateRow)
    requires IsHead(states, moduleId, scope, x)
    ensures IsHead(states + [last], moduleId, scope,
                   if InScope(last, moduleId, scope) && last.supersededBy.None? && Newer(last, x) then last else x)
  {
    NotOlderOrder(last, x, x);
    NotOlderOrder(x, last, x);
    forall y | y in states && InScope(y, moduleId, scope) && y.supersededBy.None? ensures Newer(last, x) ==> NotOlder(last, y) {
      NotOlderOrder(last, x, y);
    }
  }

  /** The head a caller reads is the newest unsuperseded row of its scope, and there is one unless all rows are superseded. */
  lemma {:induction false} HeadIsNewest(states: seq<StateRow>, moduleId: string, scope: Scope)
    ensures Head(states, moduleId, scope).None? <==> forall x :: x in states && InScope(x, moduleId, scope) ==> x.supersededBy.Some?
    ensures Head(states, moduleId, scope).Some? ==> IsHead(states, moduleId, scope, Head(states, moduleId, scope).value)
    decreases |states|
  {
    if states != [] {
      var init, last := states[..|states| - 1], states[|states| - 1];
      assert states == init + [last];
      HeadIsNewest(init, moduleId, scope);
      if Head(init, moduleId, scope).Some? {
        HeadOfLonger(init, moduleId, scope, Head(init, moduleId, scope).value, last);
      } else {
        NotOlderOrder(last, last, last);
      }
    }
  }

  // --- conditions ---------------------------------------------------------------------------------

  /** Nothing is ill-formed, every id is new, the caller's expectation of the head holds, and the triggers agree. */
  predicate WellPosed(h: Hashing, t: Tables, input: Advance, head: Option<StateRow>, accepted: bool) {
    && input.moduleId != "" && IsContentAddress(input.artifact) && input.rowId != "" && input.transitionId != ""
    && (input.currentId.Some? ==> head.Some? && head.value.id == input.currentId.value)
    && (input.claim.Some? ==> input.claim.value.result.scopeHash == h.scopeHash(input.scope))
    && (forall i :: 0 <= i < |t.states| ==> t.states[i].id != input.rowId)
    && (forall i :: 0 <= i < |t.transitions| ==> t.transitions[i].id != input.transitionId)
    && accepted
  }

  /** The row the caller read as head still is unsuperseded where the caller writes. */
  predicate StillHead(t: Tables, head: Option<StateRow>) {
    head.Some? ==> exists i :: 0 <= i < |t.states| && t.states[i].id == head.value.id && t.states[i].supersededBy.None?
  }

  /** The edge from what the caller read. */
  predicate Edge(head: Option<StateRow>, to: Position) {
    (if head.Some? then head.value.state else NotImplemented) in EnteredFrom(to)
  }

  predicate EverIn(t: Tables, input: Advance, positions: set<Position>) {
    exists i :: 0 <= i < |t.states| && InScope(t.states[i], input.moduleId, input.scope) && t.states[i].state in positions
  }

  predicate Open(t: Tables, input: Advance, hash: string) {
    exists i :: 0 <= i < |t.containments| && t.containments[i].moduleId == input.moduleId && t.containments[i].scopeHash == hash
      && t.containments[i].clearedBy.None?
  }

  predicate SpentOn(t: Tables, input: Advance, hash: string, event: string) {
    exists i :: 0 <= i < |t.states| && t.states[i].moduleId == input.moduleId && t.states[i].scopeHash == hash
      && t.states[i].state == Active && t.states[i].event == Some(event)
  }

  /** White space and line ends of the ECMAScript standard, by their Unicode characters. */
  predicate Trimmed(c: char) {
    || c in {'\t', '\n', '\U{B}', '\U{C}', '\r', ' ', '\U{A0}', '\U{FEFF}', '\U{2028}', '\U{2029}'}
    || c in {'\U{1680}', '\U{202F}', '\U{205F}', '\U{3000}'} || '\U{2000}' <= c <= '\U{200A}'
  }

  lemma TrimmedIff(c: char)
    ensures IsSpace(c) <==> Trimmed(c)
  {
  }

  predicate HasInk(s: string) { exists i :: 0 <= i < |s| && !IsSpace(s[i]) }

  /** An event the row inherits or is given, if any, is not blank. */
  predicate InheritedEventHasInk(input: Advance, head: Option<StateRow>) {
    var event := if input.explicitEvent.Some? then input.explicitEvent.value else if head.Some? then head.value.event else None;
    event.Some? ==> HasInk(event.value)
  }

  /** Everything that must hold for the claim that comes with an entry into ACTIVE. */
  ghost predicate ClaimHolds(h: Hashing, t: Tables, input: Advance) {
    && input.claim.Some? && input.claim.value.setRef.Some?
    && var result, hash := input.claim.value.result, h.scopeHash(input.scope);
       && result.passed
       && (input.distribution == WorkspaceAuthorized ==> result.kind == Workspace)
       && (input.distribution == PublicAuthorized ==> result.kind == Public)
       && (input.operational == ReadyForActiveProfile ==> result.kind != Operational)
       && HasInk(result.event) && !SpentOn(t, input, hash, result.event)
       && Backs(h, t.evaluations, input.scope, result.kind, result.event, input.claim.value.setRef.value, input.at)
  }

  // --- the laws -------------------------------------------------------------------------------------

  lemma IndexIff(states: seq<StateRow>, id: string)
    requires UniqueIds(states)
    ensures IndexOf(states, id).Some? && states[IndexOf(states, id).value].supersededBy.None?
       <==> exists i :: 0 <= i < |states| && states[i].id == id && states[i].supersededBy.None?
  {
  }

  lemma BlankIff(s: string)
    ensures Blank(s) <==> !HasInk(s)
  {
  }

  lemma AppendsIff(h: Hashing, t: Tables, input: Advance, head: Option<StateRow>)
    requires UniqueIds(t.states)
    ensures Appended(h, t, input, head).Ok? <==> StillHead(t, head)
  {
    if head.Some? { IndexIff(t.states, head.value.id); }
  }

  /** What the input itself must carry for its target. */
  predicate Formed(input: Advance) {
    && (input.to == Proven ==>
          && input.provenRef.Some? && IsContentAddress(input.provenRef.value)
          && input.provenEvent.Some? && HasInk(input.provenEvent.value))
    && (input.to == Active ==>
          && input.claim.Some? && input.claim.value.result.passed
          && (input.distribution == WorkspaceAuthorized ==> input.claim.value.result.kind == Workspace)
          && (input.distribution == PublicAuthorized ==> input.claim.value.result.kind == Public)
          && (input.operational == ReadyForActiveProfile ==> input.claim.value.result.kind != Operational))
  }

  /** The event of the new row, if it has one, is not blank. */
  predicate EventHasInk(input: Advance, head: Option<StateRow>) {
    if input.to == Active then input.claim.Some? && HasInk(input.claim.value.result.event) else InheritedEventHasInk(input, head)
  }

  lemma PrecheckIff(h: Hashing, input: Advance, head: Option<StateRow>)
    ensures Precheck(h, input, head).None? <==>
            && input.moduleId != "" && IsContentAddress(input.artifact) && input.rowId != "" && input.transitionId != ""
            && (input.currentId.Some? ==> head.Some? && head.value.id == input.currentId.value)
            && (input.claim.Some? ==> input.claim.value.result.scopeHash == h.scopeHash(input.scope))
            && Formed(input) && Edge(head, input.to)
  {
    LegalIffEntered(FromOf(head), input.to);
    if input.provenEvent.Some? { BlankIff(input.provenEvent.value); }
  }

  lemma EventBlankIff(input: Advance, head: Option<StateRow>)
    requires input.to == Active ==> input.claim.Some?
    ensures EventHasInk(input, head) <==> !(EventOf(input, head).Some? && Blank(EventOf(input, head).value))
  {
    if EventOf(input, head).Some? { BlankIff(EventOf(input, head).value); }
  }

  /** Any advance commits if and only if it is well posed and formed, a legal edge from a head that still is one, and passes its guard. */
  lemma CommitsIff(h: Hashing, read: Tables, t: Tables, input: Advance, accepted: bool)
    requires UniqueIds(t.states)
    ensures var head := Head(read.states, input.moduleId, input.scope);
            AdvanceState(h, read, t, input, accepted).Ok? <==>
            && WellPosed(h, t, input, head, accepted) && Edge(head, input.to) && StillHead(t, head) && Formed(input)
            && EventHasInk(input, head) && GuardRefusal(h, t, input).None?
  {
    var head := Head(read.states, input.moduleId, input.scope);
    PrecheckIff(h, input, head);
    if Precheck(h, input, head).None? {
      AppendsIff(h, t, input, head);
      EventBlankIff(input, head);
    }
  }

  /** Entry into ACTIVE commits if and only if all of this holds, of the head the caller read and of the rows it writes onto. */
  lemma ActiveCommitsIff(h: Hashing, read: Tables, t: Tables, input: Advance, accepted: bool)
    requires UniqueIds(t.states) && input.to == Active
    ensures var head := Head(read.states, input.moduleId, input.scope);
            AdvanceState(h, read, t, input, accepted).Ok? <==>
            && WellPosed(h, t, input, head, accepted) && Edge(head, Active) && StillHead(t, head)
            && ClaimHolds(h, t, input)
            && (input.scope.requiresProven ==> EverIn(t, input, {Proven}))
            && EverIn(t, input, {Available, Proven, Active})
            && !Open(t, input, h.scopeHash(input.scope))
  {
    CommitsIff(h, read, t, input, accepted);
    if input.claim.Some? {
      ActiveGuardIff(h, t, input);
    }
  }

  lemma DimensionsIff(t: Tables, input: Advance)
    ensures IsAvailable(t.states, input.moduleId, input.scope) <==> EverIn(t, input, {Available, Proven, Active})
    ensures IsProven(t.states, input.moduleId, input.scope) <==> EverIn(t, input, {Proven})
    ensures EverIn(t, input, {Available, Proven, Active}) ==> IsImplemented(t.states, input.moduleId, input.scope)
  {
  }

  lemma ActiveGuardIff(h: Hashing, t: Tables, input: Advance)
    requires input.claim.Some?
    ensures var result, hash := input.claim.value.result, h.scopeHash(input.scope);
            ActiveRefusal(h, t, input).None? <==>
            && input.claim.value.setRef.Some?
            && HasInk(result.event) && !SpentOn(t, input, hash, result.event)
            && Backs(h, t.evaluations, input.scope, result.kind, result.event, input.claim.value.setRef.value, input.at)
            && (input.scope.requiresProven ==> EverIn(t, input, {Proven}))
            && EverIn(t, input, {Available, Proven, Active})
            && !Open(t, input, hash)
  {
    var result, hash := input.claim.value.result, h.scopeHash(input.scope);
    var ref := if input.claim.value.setRef.Some? then input.claim.value.setRef.value else "";
    BlankIff(result.event);
    DimensionsIff(t, input);
    AcceptsIffBacked(h, t.evaluations, input.scope, result.kind, result.event, ref, input.at);
    var evidence := Guard(h, Select(t.evaluations, hash, result.kind, result.event), result.kind, input.scope, ref, input.at);
    if evidence.Ok? {
      ClaimedGates(h, t.evaluations, input.scope, result.kind, result.event, ref, input.at);
    }
    assert Contained(t.containments, input.moduleId, hash) <==> Open(t, input, hash);
    assert Consumed(t.states, input.moduleId, hash, result.event) <==> SpentOn(t, input, hash, result.event);
    GuardInWords(h, t, input, evidence);
  }

  /** The guard of ACTIVE, with the evidence check's answer given. */
  lemma GuardInWords(h: Hashing, t: Tables, input: Advance, evidence: Result<seq<Row>, EvidenceRefusal>)
    requires input.claim.Some?
    requires var result := input.claim.value.result;
             evidence == Guard(h, Select(t.evaluations, h.scopeHash(input.scope), result.kind, result.event), result.kind, input.scope,
                               if input.claim.value.setRef.Some? then input.claim.value.setRef.value else "", input.at)
    ensures var result, hash := input.claim.value.result, h.scopeHash(input.scope);
            ActiveRefusal(h, t, input).None? <==>
            && (input.scope.requiresProven ==> IsProven(t.states, input.moduleId, input.scope))
            && !Contained(t.containments, input.moduleId, hash) && !Blank(result.event)
            && !Consumed(t.states, input.moduleId, hash, result.event) && evidence.Ok?
            && (ClaimsPass(evidence.value, ImplementedPresent) ==> IsImplemented(t.states, input.moduleId, input.scope))
            && (ClaimsPass(evidence.value, AvailableEvidence) ==> IsAvailable(t.states, input.moduleId, input.scope))
            && (ClaimsPass(evidence.value, ProvenPresent) ==> IsProven(t.states, input.moduleId, input.scope))
  {
  }

  /** An accepted batch claims a dimension exactly when its kind demands the gate. */
  lemma ClaimedGates(h: Hashing, evaluations: seq<Row>, scope: Scope, kind: ActivationKind, event: string, ref: string, at: int)
    requires Guard(h, Select(evaluations, h.scopeHash(scope), kind, event), kind, scope, ref, at).Ok?
    ensures var batch := Guard(h, Select(evaluations, h.scopeHash(scope), kind, event), kind, scope, ref, at).value;
            && ClaimsPass(batch, ImplementedPresent) && ClaimsPass(batch, AvailableEvidence)
            && (ClaimsPass(batch, ProvenPresent) <==> scope.requiresProven)
  {
    var selected := Select(evaluations, h.scopeHash(scope), kind, event);
    GuardAcceptsIff(h, selected, kind, scope, ref, at);
    var batch := AtInstant(selected, Latest(selected));
    ClaimIff(batch, kind, scope, at, ImplementedPresent);
    ClaimIff(batch, kind, scope, at, AvailableEvidence);
    ClaimIff(batch, kind, scope, at, ProvenPresent);
  }

  lemma ClaimIff(batch: seq<Row>, kind: ActivationKind, scope: Scope, at: int, gate: GateKind)
    requires Complete(batch, kind, scope, at)
    ensures ClaimsPass(batch, gate) <==> gate in GatesFor(kind, scope.requiresProven)
  {
    RequiredByKind(gate, kind, scope);
    assert Once(batch, gate);
    var i :| 0 <= i < |batch| && batch[i].gate == gate;
    assert Exact(batch[i], kind, scope, at);
    assert forall j :: 0 <= j < |batch| && batch[j].gate == gate ==> j == i;
  }

  /** Entry into PROVEN commits if and only if the named OPPORTUNITY evidence backs it and the scope was made available. */
  lemma ProvenCommitsIff(h: Hashing, read: Tables, t: Tables, input: Advance, accepted: bool)
    requires UniqueIds(t.states) && input.to == Proven
    ensures var head := Head(read.states, input.moduleId, input.scope);
            AdvanceState(h, read, t, input, accepted).Ok? <==>
            && WellPosed(h, t, input, head, accepted) && Edge(head, Proven) && StillHead(t, head)
            && input.provenRef.Some? && IsContentAddress(input.provenRef.value)
            && input.provenEvent.Some? && HasInk(input.provenEvent.value)
            && Backs(h, t.evaluations, input.scope, Opportunity, input.provenEvent.value, input.provenRef.value, input.at)
            && EverIn(t, input, {Available, Proven, Active}) && InheritedEventHasInk(input, head)
  {
    CommitsIff(h, read, t, input, accepted);
    if input.provenRef.Some? && input.provenEvent.Some? {
      ProvenGuardIff(h, t, input);
    }
  }

  lemma ProvenGuardIff(h: Hashing, t: Tables, input: Advance)
    requires input.provenRef.Some? && input.provenEvent.Some?
    ensures ProvenRefusal(h, t, input).None? <==>
            && Backs(h, t.evaluations, input.scope, Opportunity, input.provenEvent.value, input.provenRef.value, input.at)
            && EverIn(t, input, {Available, Proven, Active})
  {
    DimensionsIff(t, input);
    AcceptsIffBacked(h, t.evaluations, input.scope, Opportunity, input.provenEvent.value, input.provenRef.value, input.at);
  }

  /** Any other advance commits if and only if it is well posed, a legal edge, and its head is still the head. */
  lemma PlainCommitsIff(h: Hashing, read: Tables, t: Tables, input: Advance, accepted: bool)
    requires UniqueIds(t.states) && input.to != Active && input.to != Proven
    ensures var head := Head(read.states, input.moduleId, input.scope);
            AdvanceState(h, read, t, input, accepted).Ok? <==>
            WellPosed(h, t, input, head, accepted) && Edge(head, input.to) && StillHead(t, head) && InheritedEventHasInk(input, head)
  {
    CommitsIff(h, read, t, input, accepted);
  }

  /** What a committed advance leaves: one new row, one log entry, one pointer, nothing else. */
  lemma CommitLeaves(h: Hashing, read: Tables, t: Tables, input: Advance, accepted: bool)
    requires UniqueIds(t.states) && AdvanceState(h, read, t, input, accepted).Ok?
    ensures var head, t' := Head(read.states, input.moduleId, input.scope), AdvanceState(h, read, t, input, accepted).value;
            var n := |t.states|;
            && t'.containments == t.containments && t'.rollbacks == t.rollbacks && t'.evaluations == t.evaluations
            && |t'.states| == n + 1 && |t'.transitions| == |t.transitions| + 1 && t'.transitions[..|t.transitions|] == t.transitions
            && (forall i :: 0 <= i < n ==>
                  t'.states[i] == if head.Some? && t.states[i].id == head.value.id then t.states[i].(supersededBy := Some(input.rowId)) else t.states[i])
            && var row, entry := t'.states[n], t'.transitions[|t.transitions|];
               && row.id == input.rowId && InScope(row, input.moduleId, input.scope) && row.scopeHash == h.scopeHash(input.scope)
               && row.artifact == input.artifact && row.state == input.to && row.supersededBy.None? && row.createdAt == input.at
               && row.operational == input.operational && row.distribution == input.distribution
               && entry.id == input.transitionId && entry.rowId == input.rowId && entry.to == input.to
               && entry.from == (if head.Some? then head.value.state else NotImplemented)
  {
    var head := Head(read.states, input.moduleId, input.scope);
    if head.Some? {
      var at := IndexOf(t.states, head.value.id).value;
      assert forall i :: 0 <= i < |t.states| && t.states[i].id == head.value.id ==> i == at;
    }
  }

  /** The event, the kind and the evidence reference a committed advance puts on record. */
  lemma CommitCites(h: Hashing, read: Tables, t: Tables, input: Advance, accepted: bool)
    requires AdvanceState(h, read, t, input, accepted).Ok?
    ensures var head, t' := Head(read.states, input.moduleId, input.scope), AdvanceState(h, read, t, input, accepted).value;
            && |t'.states| == |t.states| + 1 && |t'.transitions| == |t.transitions| + 1
            && var row, entry := t'.states[|t.states|], t'.transitions[|t.transitions|];
               match input.to
               case Active =>
                 && input.claim.Some? && row.event == Some(input.claim.value.result.event)
                 && row.kind == Some(input.claim.value.result.kind) && entry.gateRef == input.claim.value.setRef
               case Proven => row.kind.None? && entry.gateRef == input.provenRef && row.event == Inherited(input, head)
               case _ => row.kind.None? && entry.gateRef.None? && row.event == Inherited(input, head)
  {
    var head := Head(read.states, input.moduleId, input.scope);
    assert input.to == Active ==> input.claim.Some?;
    AppendEnds(h, t, input, head);
  }

  lemma AppendEnds(h: Hashing, t: Tables, input: Advance, head: Option<StateRow>)
    requires Appended(h, t, input, head).Ok?
    ensures var t' := Appended(h, t, input, head).value;
            && |t'.states| == |t.states| + 1 && t'.states[|t.states|] == NewRow(h, input, head)
            && |t'.transitions| == |t.transitions| + 1 && t'.transitions[|t.transitions|] == NewTransition(input, head)
  {
  }

  /** The event given, or else that of the row before. */
  function Inherited(input: Advance, head: Option<StateRow>): Option<string> {
    if input.explicitEvent.Some? then input.explicitEvent.value else if head.Some? then head.value.event else None
  }
}
