/**
 What every trace of the module-state registry keeps: the activation laws in the words of the
 registry, the shape of the supersede chain, and the exact condition under which it stays linear.
 */
module RegistryHistory {
  import opened Prelude
  import opened Texts
  import opened GateEvidence
  import opened ModuleRegistry

  // --- entry into ACTIVE ------------------------------------------------------------------------

  predicate Establishes(row: StateRow, moduleId: string, scope: Scope) {
    InScope(row, moduleId, scope) && row.state in ESTABLISHES_AVAILABLE
  }

  /** The first row of a scope that is AVAILABLE, PROVEN or ACTIVE is AVAILABLE. */
  lemma FirstEstablishedIsAvailable(h: Hashing, trace: seq<Tables>, steps: seq<Step>, k: nat, i: nat)
    requires IsTrace(h, trace, steps) && k < |trace| && i < |trace[k].states|
    requires trace[k].states[i].state in ESTABLISHES_AVAILABLE
    requires forall j :: 0 <= j < i ==> !Establishes(trace[k].states[j], trace[k].states[i].moduleId, trace[k].states[i].scope)
    ensures trace[k].states[i].state == Available
  {
    ReachableIsLawful(h, trace, steps, k);
    var states := trace[k].states;
    assert !EarlierInScope(states, i, Available);
  }

  /** Every ACTIVE row of a scope that demands it follows a PROVEN row, and no event backs two ACTIVE rows. */
  lemma ActiveRowsAreEarned(h: Hashing, trace: seq<Tables>, steps: seq<Step>, k: nat, i: nat)
    requires IsTrace(h, trace, steps) && k < |trace| && i < |trace[k].states| && trace[k].states[i].state == Active
    ensures trace[k].states[i].scope.requiresProven ==> EarlierInScope(trace[k].states, i, Proven)
    ensures forall j ::
              (0 <= j < |trace[k].states| && j != i && trace[k].states[j].state == Active
               && SameScope(trace[k].states[j], trace[k].states[i])) ==> trace[k].states[j].event != trace[k].states[i].event
  {
    ReachableIsLawful(h, trace, steps, k);
  }

  /** What a step appended. */
  lemma StepAppends(h: Hashing, trace: seq<Tables>, steps: seq<Step>, k: nat)
    requires IsTrace(h, trace, steps) && k < |steps| && |trace[k].states| < |trace[k + 1].states|
    ensures var insert := InsertOf(trace[ReadIndex(steps[k], k)], trace[k], steps[k]);
            && insert.Some?
            && Inserted(h, trace[k], insert.value.0,
                        Head(insert.value.1.states, insert.value.0.moduleId, insert.value.0.scope), trace[k + 1])
            && |trace[k + 1].states| == |trace[k].states| + 1
  {
    TraceStep(h, trace, steps, k);
    var read := trace[ReadIndex(steps[k], k)];
    StepShape(h, read, trace[k], steps[k]);
    var insert := InsertOf(read, trace[k], steps[k]);
    InsertExtends(h, trace[k], insert.value.0, Head(insert.value.1.states, insert.value.0.moduleId, insert.value.0.scope), trace[k + 1]);
  }

  /** No ACTIVE row is inserted while a containment on the exact scope is open. */
  lemma NoActivationWhileContained(h: Hashing, trace: seq<Tables>, steps: seq<Step>, k: nat)
    requires IsTrace(h, trace, steps) && k < |steps| && |trace[k].states| < |trace[k + 1].states|
    ensures var row := trace[k + 1].states[|trace[k].states|];
            row.state == Active ==> !Contained(trace[k].containments, row.moduleId, row.scopeHash)
  {
    StepAppends(h, trace, steps, k);
    var insert := InsertOf(trace[ReadIndex(steps[k], k)], trace[k], steps[k]).value;
    if insert.0.to == Active {
      GuardedEntry(h, trace[k], insert.0);
    }
  }

  // --- a refusal binds every later step -----------------------------------------------------------

  /** The advance rests on the evidence recorded for this scope hash, kind and event. */
  predicate RestsOn(h: Hashing, adv: Advance, hash: string, kind: ActivationKind, event: string) {
    && h.scopeHash(adv.scope) == hash
    && ( || (adv.to == Active && adv.claim.Some? && adv.claim.value.result.kind == kind && adv.claim.value.result.event == event)
         || (adv.to == Proven && kind == Opportunity && adv.provenEvent == Some(event)))
  }

  predicate HasRefusal(rows: seq<Row>, hash: string, kind: ActivationKind, event: string) {
    exists i :: 0 <= i < |rows| && Matches(rows[i], hash, kind, event) && rows[i].verdict == Refuse
  }

  lemma RefusedEvidenceGuards(h: Hashing, t: Tables, adv: Advance, hash: string, kind: ActivationKind, event: string)
    requires adv.to == Proven ==> adv.provenRef.Some? && adv.provenEvent.Some?
    requires adv.to == Active ==> adv.claim.Some?
    requires HasRefusal(t.evaluations, hash, kind, event) && RestsOn(h, adv, hash, kind, event)
    ensures GuardRefusal(h, t, adv).Some?
  {
    if adv.to == Proven {
      RefusedProven(h, t, adv);
    } else {
      RefusedActive(h, t, adv);
    }
  }

  /** The guard accepts nothing for a triple with a refusal on record. */
  lemma RefusedNeverAccepted(h: Hashing, rows: seq<Row>, hash: string, kind: ActivationKind, event: string, scope: Scope, ref: string, at: int)
    requires HasRefusal(rows, hash, kind, event)
    ensures Guard(h, Select(rows, hash, kind, event), kind, scope, ref, at).Err?
  {
    var i :| 0 <= i < |rows| && Matches(rows[i], hash, kind, event) && rows[i].verdict == Refuse;
    RefusalIsPermanent(h, rows, rows, rows[i], hash, kind, event, scope, ref, at);
  }

  lemma RefusedProven(h: Hashing, t: Tables, adv: Advance)
    requires adv.provenRef.Some? && adv.provenEvent.Some?
    requires HasRefusal(t.evaluations, h.scopeHash(adv.scope), Opportunity, adv.provenEvent.value)
    ensures ProvenRefusal(h, t, adv).Some?
  {
    RefusedNeverAccepted(h, t.evaluations, h.scopeHash(adv.scope), Opportunity, adv.provenEvent.value, adv.scope, adv.provenRef.value, adv.at);
  }

  lemma RefusedActive(h: Hashing, t: Tables, adv: Advance)
    requires adv.claim.Some?
    requires HasRefusal(t.evaluations, h.scopeHash(adv.scope), adv.claim.value.result.kind, adv.claim.value.result.event)
    ensures ActiveRefusal(h, t, adv).Some?
  {
    var claim := adv.claim.value;
    RefusedNeverAccepted(h, t.evaluations, h.scopeHash(adv.scope), claim.result.kind, claim.result.event, adv.scope,
                         if claim.setRef.Some? then claim.setRef.value else "", adv.at);
  }

  /** After a recorded REFUSE for a triple, no later step of any trace inserts a PROVEN or ACTIVE row that rests on it. */
  lemma RefusalBindsEveryLaterStep(h: Hashing, trace: seq<Tables>, steps: seq<Step>, j: nat, k: nat,
                                   hash: string, kind: ActivationKind, event: string)
    requires IsTrace(h, trace, steps) && j <= k < |steps| && HasRefusal(trace[j].evaluations, hash, kind, event)
    requires |trace[k].states| < |trace[k + 1].states|
    ensures var insert := InsertOf(trace[ReadIndex(steps[k], k)], trace[k], steps[k]);
            insert.Some? && !RestsOn(h, insert.value.0, hash, kind, event)
    ensures var row := trace[k + 1].states[|trace[k].states|];
            !(row.state == Active && row.scopeHash == hash && row.kind == Some(kind) && row.event == Some(event))
  {
    StepAppends(h, trace, steps, k);
    HistoryPreserved(h, trace, steps, j, k);
    RefusalStays(trace[j].evaluations, trace[k].evaluations, hash, kind, event);
    var adv := InsertOf(trace[ReadIndex(steps[k], k)], trace[k], steps[k]).value.0;
    if RestsOn(h, adv, hash, kind, event) {
      RefusedEvidenceGuards(h, trace[k], adv, hash, kind, event);
    }
  }

  lemma RefusalStays(rows: seq<Row>, later: seq<Row>, hash: string, kind: ActivationKind, event: string)
    requires rows <= later && HasRefusal(rows, hash, kind, event)
    ensures HasRefusal(later, hash, kind, event)
  {
    var i :| 0 <= i < |rows| && Matches(rows[i], hash, kind, event) && rows[i].verdict == Refuse;
    assert later[i] == rows[i];
  }

  // --- of all advances that read one head, one commits ------------------------------------------

  /** The head a committed insert of a step continues. */
  function Continued(trace: seq<Tables>, steps: seq<Step>, k: nat): Option<StateRow>
    requires |trace| == |steps| + 1 && k < |steps| && ReadIndex(steps[k], k) <= k
  {
    match InsertOf(trace[ReadIndex(steps[k], k)], trace[k], steps[k])
    case Some((adv, source)) => Head(source.states, adv.moduleId, adv.scope)
    case None => None
  }

  /** Step `k` appends a row behind the row with this id. */
  predicate Supersedes(h: Hashing, trace: seq<Tables>, steps: seq<Step>, k: nat, id: string)
    requires IsTrace(h, trace, steps) && k < |steps|
  {
    |trace[k].states| < |trace[k + 1].states| && Continued(trace, steps, k).Some? && Continued(trace, steps, k).value.id == id
  }

  predicate HasPointer(states: seq<StateRow>, id: string) {
    exists i :: 0 <= i < |states| && states[i].id == id && states[i].supersededBy.Some?
  }

  predicate HasNoPointer(states: seq<StateRow>, id: string) {
    exists i :: 0 <= i < |states| && states[i].id == id && states[i].supersededBy.None?
  }

  lemma SupersedeSetsPointer(h: Hashing, trace: seq<Tables>, steps: seq<Step>, k: nat, id: string)
    requires IsTrace(h, trace, steps) && k < |steps| && Supersedes(h, trace, steps, k, id)
    ensures HasNoPointer(trace[k].states, id) && HasPointer(trace[k + 1].states, id)
  {
    StepAppends(h, trace, steps, k);
    var at := IndexOf(trace[k].states, id).value;
    assert trace[k].states[at].id == id && trace[k].states[at].supersededBy.None?;
    assert trace[k + 1].states[at].id == id && trace[k + 1].states[at].supersededBy.Some?;
  }

  lemma PointerStays(t: Tables, t': Tables, id: string)
    requires Extends(t, t') && HasPointer(t.states, id) && UniqueIds(t'.states)
    ensures !HasNoPointer(t'.states, id)
  {
    var i :| 0 <= i < |t.states| && t.states[i].id == id && t.states[i].supersededBy.Some?;
    assert SameButPointer(t.states[i], t'.states[i]);
    assert t'.states[i].id == id && t'.states[i].supersededBy.Some?;
  }

  /** Of all the steps that read the same head, at most one commits. */
  lemma OneSuccessorPerHead(h: Hashing, trace: seq<Tables>, steps: seq<Step>, j: nat, k: nat, id: string)
    requires IsTrace(h, trace, steps) && j < |steps| && k < |steps|
    requires Supersedes(h, trace, steps, j, id) && Supersedes(h, trace, steps, k, id)
    ensures j == k
  {
    if j < k {
      NoSecondSuccessor(h, trace, steps, j, k, id);
    }
    if k < j {
      NoSecondSuccessor(h, trace, steps, k, j, id);
    }
  }

  lemma NoSecondSuccessor(h: Hashing, trace: seq<Tables>, steps: seq<Step>, j: nat, k: nat, id: string)
    requires IsTrace(h, trace, steps) && j < k < |steps|
    requires Supersedes(h, trace, steps, j, id)
    ensures !Supersedes(h, trace, steps, k, id)
  {
    SupersedeSetsPointer(h, trace, steps, j, id);
    HistoryPreserved(h, trace, steps, j + 1, k);
    ReachableIsLawful(h, trace, steps, k);
    PointerStays(trace[j + 1], trace[k], id);
    if Supersedes(h, trace, steps, k, id) {
      SupersedeSetsPointer(h, trace, steps, k, id);
    }
  }

  // --- the chain of one scope -------------------------------------------------------------------

  /** The rows of one scope, in commit order. */
  function Rows(states: seq<StateRow>, moduleId: string, scope: Scope): (rows: seq<StateRow>)
    ensures forall row :: row in rows <==> row in states && InScope(row, moduleId, scope)
  {
    if states == [] then []
    else
      var rest := Rows(states[..|states| - 1], moduleId, scope);
      assert states == states[..|states| - 1] + [states[|states| - 1]];
      if InScope(states[|states| - 1], moduleId, scope) then rest + [states[|states| - 1]] else rest
  }

  predicate PointsOn(rows: seq<StateRow>, i: int)
    requires 0 <= i < |rows| - 1
  {
    rows[i].supersededBy == Some(rows[i + 1].id)
  }

  /** Every row points at the next one and only the last is a head. */
  predicate Linear(rows: seq<StateRow>) {
    && (forall i :: 0 <= i < |rows| - 1 ==> PointsOn(rows, i))
    && (rows != [] ==> rows[|rows| - 1].supersededBy.None?)
  }

  lemma {:induction false} RowsAppend(states: seq<StateRow>, row: StateRow, moduleId: string, scope: Scope)
    ensures Rows(states + [row], moduleId, scope)
         == Rows(states, moduleId, scope) + if InScope(row, moduleId, scope) then [row] else []
  {
    assert (states + [row])[..|states|] == states;
  }

  predicate LastInScope(states: seq<StateRow>, at: nat, moduleId: string, scope: Scope)
    requires at < |states|
  {
    InScope(states[at], moduleId, scope) && forall j :: at < j < |states| ==> !InScope(states[j], moduleId, scope)
  }

  /** The only unsuperseded row of a linear chain is its last. */
  lemma {:induction false} HeadIsLast(states: seq<StateRow>, at: nat, moduleId: string, scope: Scope)
    requires at < |states| && InScope(states[at], moduleId, scope) && states[at].supersededBy.None?
    requires Linear(Rows(states, moduleId, scope))
    ensures LastInScope(states, at, moduleId, scope)
    decreases |states|
  {
    var n := |states| - 1;
    var rows, all := Rows(states[..n], moduleId, scope), Rows(states, moduleId, scope);
    if at < n {
      assert states[..n][at] in states[..n];
      assert states[at] in rows;
      if InScope(states[n], moduleId, scope) {
        assert all == rows + [states[n]];
        forall i | 0 <= i < |rows| ensures rows[i].supersededBy.Some? {
          assert PointsOn(all, i);
        }
      } else {
        HeadIsLast(states[..n], at, moduleId, scope);
      }
    }
  }

  lemma {:induction false} RowsUpTo(states: seq<StateRow>, at: nat, moduleId: string, scope: Scope)
    requires at < |states| && LastInScope(states, at, moduleId, scope)
    ensures Rows(states, moduleId, scope) == Rows(states[..at], moduleId, scope) + [states[at]]
    decreases |states|
  {
    var before, last := states[..|states| - 1], states[|states| - 1];
    assert states == before + [last];
    RowsAppend(before, last, moduleId, scope);
    if at < |before| {
      assert before[..at] == states[..at];
      RowsUpTo(before, at, moduleId, scope);
    }
  }

  /** Rewriting the last row of a scope rewrites the last row of its chain. */
  lemma RowsRelink(states: seq<StateRow>, at: nat, row: StateRow, moduleId: string, scope: Scope)
    requires at < |states| && LastInScope(states, at, moduleId, scope) && InScope(row, moduleId, scope)
    ensures |Rows(states, moduleId, scope)| > 0
    ensures Rows(states, moduleId, scope)[|Rows(states, moduleId, scope)| - 1] == states[at]
    ensures Rows(states[at := row], moduleId, scope)
            == Rows(states, moduleId, scope)[|Rows(states, moduleId, scope)| - 1 := row]
  {
    RowsUpTo(states, at, moduleId, scope);
    assert states[at := row][..at] == states[..at];
    RowsUpTo(states[at := row], at, moduleId, scope);
  }

  /** Rows of other scopes are not part of the chain. */
  lemma {:induction false} RowsSkip(states: seq<StateRow>, at: nat, row: StateRow, moduleId: string, scope: Scope)
    requires at < |states| && !InScope(states[at], moduleId, scope) && !InScope(row, moduleId, scope)
    ensures Rows(states[at := row], moduleId, scope) == Rows(states, moduleId, scope)
    decreases |states|
  {
    var n := |states| - 1;
    if at == n {
      assert states[at := row][..n] == states[..n];
    } else {
      assert states[at := row][..n] == states[..n][at := row];
      RowsSkip(states[..n], at, row, moduleId, scope);
    }
  }

  /** The step starts a second chain: it read no head, yet the scope has rows when it commits. */
  predicate Forks(h: Hashing, trace: seq<Tables>, steps: seq<Step>, k: nat, moduleId: string, scope: Scope)
    requires IsTrace(h, trace, steps) && k < |steps|
  {
    && |trace[k].states| < |trace[k + 1].states|
    && InScope(trace[k + 1].states[|trace[k].states|], moduleId, scope)
    && Continued(trace, steps, k).None?
    && IsImplemented(trace[k].states, moduleId, scope)
  }

  lemma RootKeepsLinear(states: seq<StateRow>, row: StateRow, moduleId: string, scope: Scope)
    requires Linear(Rows(states, moduleId, scope)) && row.supersededBy.None?
    requires InScope(row, moduleId, scope) ==> !IsImplemented(states, moduleId, scope)
    ensures Linear(Rows(states + [row], moduleId, scope))
  {
    RowsAppend(states, row, moduleId, scope);
    var rows := Rows(states, moduleId, scope);
    assert forall i :: 0 <= i < |rows| ==> rows[i] in states;
  }

  lemma LinkKeepsLinear(states: seq<StateRow>, at: nat, row: StateRow, moduleId: string, scope: Scope)
    requires at < |states| && SameScope(states[at], row) && states[at].supersededBy.None? && row.supersededBy.None?
    requires Linear(Rows(states, moduleId, scope))
    ensures Linear(Rows(states[at := Superseded(states[at], row.id)] + [row], moduleId, scope))
  {
    var linked := Superseded(states[at], row.id);
    var relinked := states[at := linked];
    RowsAppend(relinked, row, moduleId, scope);
    if InScope(row, moduleId, scope) {
      LinkExtends(states, at, linked, row, moduleId, scope);
    } else {
      RowsSkip(states, at, linked, moduleId, scope);
      var rows := Rows(relinked, moduleId, scope);
      assert rows + [] == rows;
    }
  }

  lemma LinkExtends(states: seq<StateRow>, at: nat, linked: StateRow, row: StateRow, moduleId: string, scope: Scope)
    requires at < |states| && InScope(states[at], moduleId, scope) && states[at].supersededBy.None? && row.supersededBy.None?
    requires linked == Superseded(states[at], row.id) && Linear(Rows(states, moduleId, scope))
    ensures Linear(Rows(states[at := linked], moduleId, scope) + [row])
  {
    HeadIsLast(states, at, moduleId, scope);
    RowsRelink(states, at, linked, moduleId, scope);
    LinearExtends(Rows(states, moduleId, scope), linked, row);
  }

  lemma LinearExtends(rows: seq<StateRow>, linked: StateRow, row: StateRow)
    requires Linear(rows) && |rows| > 0 && linked.id == rows[|rows| - 1].id
    requires linked.supersededBy == Some(row.id) && row.supersededBy.None?
    ensures Linear(rows[|rows| - 1 := linked] + [row])
  {
    var n, all := |rows| - 1, rows[|rows| - 1 := linked] + [row];
    forall i | 0 <= i < |all| - 1 ensures PointsOn(all, i) {
      if i < n {
        assert PointsOn(rows, i);
      }
    }
  }

  lemma InsertKeepsLinear(h: Hashing, t: Tables, adv: Advance, current: Option<StateRow>, t': Tables, moduleId: string, scope: Scope)
    requires Inserted(h, t, adv, current, t') && UniqueIds(t.states) && StillThere(t.states, current)
    requires current.Some? ==> InScope(current.value, adv.moduleId, adv.scope)
    requires Linear(Rows(t.states, moduleId, scope))
    requires InScope(NewRow(h, adv, current), moduleId, scope) && current.None? ==> !IsImplemented(t.states, moduleId, scope)
    ensures Linear(Rows(t'.states, moduleId, scope))
  {
    if current.None? {
      RootKeepsLinear(t.states, NewRow(h, adv, current), moduleId, scope);
    } else {
      PredecessorIs(t, current.value);
      LinkKeepsLinear(t.states, IndexOf(t.states, current.value.id).value, NewRow(h, adv, current), moduleId, scope);
    }
  }

  /** As long as no step forks it, a scope is one linear chain over all its rows with one head. */
  lemma {:induction false} LinearUntilForked(h: Hashing, trace: seq<Tables>, steps: seq<Step>, k: nat, moduleId: string, scope: Scope)
    requires IsTrace(h, trace, steps) && k < |trace|
    requires forall j :: 0 <= j < k ==> !Forks(h, trace, steps, j, moduleId, scope)
    ensures Linear(Rows(trace[k].states, moduleId, scope))
  {
    if k > 0 {
      LinearUntilForked(h, trace, steps, k - 1, moduleId, scope);
      StepKeepsLinear(h, trace, steps, k - 1, moduleId, scope);
    }
  }

  lemma StepKeepsLinear(h: Hashing, trace: seq<Tables>, steps: seq<Step>, k: nat, moduleId: string, scope: Scope)
    requires IsTrace(h, trace, steps) && k < |steps| && !Forks(h, trace, steps, k, moduleId, scope)
    requires Linear(Rows(trace[k].states, moduleId, scope))
    ensures Linear(Rows(trace[k + 1].states, moduleId, scope))
  {
    TraceStep(h, trace, steps, k);
    var readAt := ReadIndex(steps[k], k);
    NextExtends(h, trace[readAt], trace[k], steps[k]);
    if |trace[k].states| < |trace[k + 1].states| {
      StepAppends(h, trace, steps, k);
      var (adv, source) := InsertOf(trace[readAt], trace[k], steps[k]).value;
      InsertContinues(h, trace, steps, k);
      InsertKeepsLinear(h, trace[k], adv, Head(source.states, adv.moduleId, adv.scope), trace[k + 1], moduleId, scope);
    } else {
      QuietStep(h, trace[readAt], trace[k], steps[k]);
    }
  }

  /** The head a step read is still a row of the table it writes. */
  lemma InsertContinues(h: Hashing, trace: seq<Tables>, steps: seq<Step>, k: nat)
    requires IsTrace(h, trace, steps) && k < |steps| && ReadIndex(steps[k], k) <= k
    ensures UniqueIds(trace[k].states) && StillThere(trace[k].states, Continued(trace, steps, k))
  {
    ReachableIsLawful(h, trace, steps, k);
    HistoryPreserved(h, trace, steps, ReadIndex(steps[k], k), k);
    match InsertOf(trace[ReadIndex(steps[k], k)], trace[k], steps[k])
    case Some((adv, source)) => HeadStillThere(source, trace[k], adv.moduleId, adv.scope);
    case None =>
  }

  lemma QuietStep(h: Hashing, read: Tables, t: Tables, step: Step)
    requires |Next(h, read, t, step).states| == |t.states|
    ensures Next(h, read, t, step).states == t.states
  {
    if Outcome(h, read, t, step).Ok? {
      StepShape(h, read, t, step);
      match InsertOf(read, t, step)
      case Some((adv, source)) => InsertExtends(h, t, adv, Head(source.states, adv.moduleId, adv.scope), Next(h, read, t, step));
      case None =>
    }
  }

  lemma {:induction false} RowsPrefix(states: seq<StateRow>, n: nat, moduleId: string, scope: Scope)
    requires n <= |states|
    ensures Rows(states[..n], moduleId, scope) <= Rows(states, moduleId, scope)
    decreases |states|
  {
    if n < |states| {
      assert states[..|states| - 1][..n] == states[..n];
      RowsPrefix(states[..|states| - 1], n, moduleId, scope);
    } else {
      assert states[..n] == states;
    }
  }

  /** In a linear chain every row but the first has a predecessor. */
  lemma LaterRowsHavePredecessors(states: seq<StateRow>, i: nat, n: nat, moduleId: string, scope: Scope)
    requires i < n < |states| && InScope(states[i], moduleId, scope) && InScope(states[n], moduleId, scope)
    requires Linear(Rows(states, moduleId, scope))
    ensures exists p :: 0 <= p < |states| && Precedes(states, p, n)
  {
    var before, all := Rows(states[..n], moduleId, scope), Rows(states, moduleId, scope);
    assert states[..n][i] in states[..n];
    assert states[i] in before;
    assert states[..n + 1] == states[..n] + [states[n]];
    RowsAppend(states[..n], states[n], moduleId, scope);
    RowsPrefix(states, n + 1, moduleId, scope);
    var at := |before|;
    assert all[at] == states[n];
    assert PointsOn(all, at - 1);
    assert all[at - 1] in states;
    var p :| 0 <= p < |states| && states[p] == all[at - 1];
    assert Precedes(states, p, n);
  }

  /** A fork is never repaired: the scope keeps two roots. */
  lemma ForkIsForever(h: Hashing, trace: seq<Tables>, steps: seq<Step>, j: nat, k: nat, moduleId: string, scope: Scope)
    requires IsTrace(h, trace, steps) && j < |steps| && j < k < |trace| && Forks(h, trace, steps, j, moduleId, scope)
    ensures !Linear(Rows(trace[k].states, moduleId, scope))
  {
    ForkIsRoot(h, trace, steps, j, moduleId, scope);
    ReachableIsLawful(h, trace, steps, k);
    HistoryPreserved(h, trace, steps, j, k);
    HistoryPreserved(h, trace, steps, j + 1, k);
    var i :| 0 <= i < |trace[j].states| && InScope(trace[j].states[i], moduleId, scope);
    SecondRootBreaksLinear(trace[j], trace[j + 1], trace[k], i, moduleId, scope);
  }

  lemma ForkIsRoot(h: Hashing, trace: seq<Tables>, steps: seq<Step>, j: nat, moduleId: string, scope: Scope)
    requires IsTrace(h, trace, steps) && j < |steps| && Forks(h, trace, steps, j, moduleId, scope)
    ensures |trace[j].states| < |trace[j + 1].states| == |trace[j + 1].transitions| && IsRoot(trace[j + 1], |trace[j].states|)
  {
    StepAppends(h, trace, steps, j);
    ReachableIsLawful(h, trace, steps, j);
  }

  lemma SecondRootBreaksLinear(t: Tables, t': Tables, later: Tables, i: nat, moduleId: string, scope: Scope)
    requires Chained(later) && Extends(t, later) && Extends(t', later) && |t.states| < |t'.states| == |t'.transitions|
    requires i < |t.states| && InScope(t.states[i], moduleId, scope) && InScope(t'.states[|t.states|], moduleId, scope)
    requires IsRoot(t', |t.states|)
    ensures !Linear(Rows(later.states, moduleId, scope))
  {
    var n := |t.states|;
    assert SameButPointer(t.states[i], later.states[i]) && SameButPointer(t'.states[n], later.states[n]);
    assert IsRoot(later, n);
    assert forall p :: 0 <= p < |later.states| ==> !Precedes(later.states, p, n);
    if Linear(Rows(later.states, moduleId, scope)) {
      LaterRowsHavePredecessors(later.states, i, n, moduleId, scope);
    }
  }

  /**
   The chain law, exactly: the rows of a scope form one linear chain with one head if and only if
   no committed advance that read an empty scope found rows there when it wrote.
   */
  lemma LinearIffNeverForked(h: Hashing, trace: seq<Tables>, steps: seq<Step>, k: nat, moduleId: string, scope: Scope)
    requires IsTrace(h, trace, steps) && k < |trace|
    ensures Linear(Rows(trace[k].states, moduleId, scope))
       <==> forall j :: 0 <= j < k ==> !Forks(h, trace, steps, j, moduleId, scope)
  {
    if forall j :: 0 <= j < k ==> !Forks(h, trace, steps, j, moduleId, scope) {
      LinearUntilForked(h, trace, steps, k, moduleId, scope);
    } else {
      var j :| 0 <= j < k && Forks(h, trace, steps, j, moduleId, scope);
      ForkIsForever(h, trace, steps, j, k, moduleId, scope);
    }
  }

  /** Reading the head in the writing transaction is enough: such traces never fork. */
  lemma {:induction false} FreshReadsNeverFork(h: Hashing, trace: seq<Tables>, steps: seq<Step>, k: nat, moduleId: string, scope: Scope)
    requires IsTrace(h, trace, steps) && k < |trace|
    requires forall j :: 0 <= j < k ==> ReadIndex(steps[j], j) == j
    ensures Linear(Rows(trace[k].states, moduleId, scope))
  {
    if k > 0 {
      FreshReadsNeverFork(h, trace, steps, k - 1, moduleId, scope);
      FreshReadSeesHead(h, trace, steps, k - 1, moduleId, scope);
      StepKeepsLinear(h, trace, steps, k - 1, moduleId, scope);
    }
  }

  lemma FreshReadSeesHead(h: Hashing, trace: seq<Tables>, steps: seq<Step>, k: nat, moduleId: string, scope: Scope)
    requires IsTrace(h, trace, steps) && k < |steps| && ReadIndex(steps[k], k) == k
    requires Linear(Rows(trace[k].states, moduleId, scope))
    ensures !Forks(h, trace, steps, k, moduleId, scope)
  {
    var rows := Rows(trace[k].states, moduleId, scope);
    if rows != [] {
      assert rows[|rows| - 1] in trace[k].states;
    }
    if Forks(h, trace, steps, k, moduleId, scope) {
      StepAppends(h, trace, steps, k);
    }
  }

  // --- containment ------------------------------------------------------------------------------

  /** Escalation picks the stronger of the two actions, whichever side it is on. */
  lemma EscalateIsMaximum(left: Position, right: Position)
    requires {left, right} <= {Degraded, Paused, Disabled}
    ensures Severity(Escalate(left, right)) >= Severity(left) && Severity(Escalate(left, right)) >= Severity(right)
    ensures Escalate(left, right) in {left, right} && Escalate(left, right) == Escalate(right, left)
  {
  }

  predicate ContainReady(t: Tables, input: ContainInput, current: StateRow) {
    && Head(t.states, input.moduleId, input.scope) == Some(current)
    && input.moduleId != "" && IsContentAddress(current.artifact) && current.state != NotImplemented
    && (current.event.Some? ==> !Blank(current.event.value))
    && input.containmentId != "" && !ContainmentExists(t.containments, input.containmentId)
    && IndexOf(t.states, input.containmentId + "-state").None? && !Logged(t.transitions, input.containmentId + "-transition")
    && (input.minimum.Some? ==> input.minimum.value in {Degraded, Paused, Disabled})
    && UniqueIds(t.states)
  }

  /**
   A containment of a governed scope is refused exactly when the scope is already DISABLED and the
   gate asks for DISABLED again. The transaction rolls back, so no containment row is recorded.
   */
  lemma ContainmentRefusedIff(h: Hashing, t: Tables, input: ContainInput, current: StateRow)
    requires ContainReady(t, input, current)
    ensures Contain(h, t, input, true).Err? <==> current.state == Disabled && RequestedAction(input) == Disabled
    ensures Contain(h, t, input, true).Ok? ==>
              Contained(Contain(h, t, input, true).value.containments, input.moduleId, h.scopeHash(input.scope))
  {
    if Contain(h, t, input, true).Ok? {
      ContainRecords(h, t, input, true);
    }
  }

  lemma ContainRecords(h: Hashing, t: Tables, input: ContainInput, accepted: bool)
    requires Contain(h, t, input, accepted).Ok?
    ensures Contained(Contain(h, t, input, accepted).value.containments, input.moduleId, h.scopeHash(input.scope))
    ensures t.containments <= Contain(h, t, input, accepted).value.containments
  {
    var after := Contain(h, t, input, accepted).value.containments;
    assert after[|t.containments|].clearedBy.None?;
  }

  lemma OnlyClearReopens(h: Hashing, read: Tables, t: Tables, step: Step, moduleId: string, hash: string)
    requires !step.DoClear? && Contained(t.containments, moduleId, hash)
    ensures Contained(Next(h, read, t, step).containments, moduleId, hash)
  {
    assert t.containments <= Next(h, read, t, step).containments;
    var i :| 0 <= i < |t.containments| && t.containments[i].moduleId == moduleId && t.containments[i].scopeHash == hash
      && t.containments[i].clearedBy.None?;
    assert Next(h, read, t, step).containments[i] == t.containments[i];
  }

  lemma StaysContained(h: Hashing, trace: seq<Tables>, steps: seq<Step>, k: nat, moduleId: string, hash: string)
    requires IsTrace(h, trace, steps) && k < |steps| && !steps[k].DoClear? && Contained(trace[k].containments, moduleId, hash)
    ensures Contained(trace[k + 1].containments, moduleId, hash)
  {
    TraceStep(h, trace, steps, k);
    OnlyClearReopens(h, trace[ReadIndex(steps[k], k)], trace[k], steps[k], moduleId, hash);
  }

  /** A contained scope stays contained, and gets no ACTIVE row, until some step clears a containment. */
  lemma {:induction false} ContainedUntilCleared(h: Hashing, trace: seq<Tables>, steps: seq<Step>, from: nat, k: nat, moduleId: string, hash: string)
    requires IsTrace(h, trace, steps) && from <= k < |trace| && Contained(trace[from].containments, moduleId, hash)
    requires forall j :: from <= j < k ==> !steps[j].DoClear?
    ensures Contained(trace[k].containments, moduleId, hash)
    ensures NoActiveSince(trace[k].states, |trace[from].states|, moduleId, hash)
    decreases k
  {
    if from < k {
      ContainedUntilCleared(h, trace, steps, from, k - 1, moduleId, hash);
      StaysContained(h, trace, steps, k - 1, moduleId, hash);
      StepAddsNoActive(h, trace, steps, k - 1, |trace[from].states|, moduleId, hash);
    }
  }

  /** No row from position `n` on is an ACTIVE row of this module and scope hash. */
  predicate NoActiveSince(states: seq<StateRow>, n: nat, moduleId: string, hash: string) {
    forall i :: n <= i < |states| ==> !(states[i].moduleId == moduleId && states[i].scopeHash == hash && states[i].state == Active)
  }

  lemma StepAddsNoActive(h: Hashing, trace: seq<Tables>, steps: seq<Step>, k: nat, n: nat, moduleId: string, hash: string)
    requires IsTrace(h, trace, steps) && k < |steps| && Contained(trace[k].containments, moduleId, hash)
    requires NoActiveSince(trace[k].states, n, moduleId, hash)
    ensures NoActiveSince(trace[k + 1].states, n, moduleId, hash)
  {
    TraceExtends(h, trace, steps, k);
    RowsKeepState(trace[k], trace[k + 1]);
    if |trace[k].states| < |trace[k + 1].states| {
      NoActivationWhileContained(h, trace, steps, k);
      StepAppends(h, trace, steps, k);
    }
  }

  lemma RowsKeepState(t: Tables, t': Tables)
    requires Extends(t, t')
    ensures forall i :: 0 <= i < |t.states| ==>
              && t'.states[i].moduleId == t.states[i].moduleId && t'.states[i].scopeHash == t.states[i].scopeHash
              && t'.states[i].state == t.states[i].state
  {
    forall i | 0 <= i < |t.states|
      ensures t'.states[i].moduleId == t.states[i].moduleId && t'.states[i].scopeHash == t.states[i].scopeHash
           && t'.states[i].state == t.states[i].state
    {
      assert SameButPointer(t.states[i], t'.states[i]);
    }
  }

  /** A committed containment leaves the scope weaker than it was exactly when a stronger stop was in force. */
  lemma ContainmentWeakensIff(h: Hashing, t: Tables, input: ContainInput, current: StateRow)
    requires ContainReady(t, input, current) && Contain(h, t, input, true).Ok?
    ensures var states := Contain(h, t, input, true).value.states;
            && |states| == |t.states| + 1
            && states[|t.states|].state in {Degraded, Paused, Disabled}
            && (Severity(states[|t.states|].state) < Severity(current.state) <==> Severity(RequestedAction(input)) < Severity(current.state))
  {
  }

  /** The recorded action is the state the scope moved to, and never milder than what the gate asks for. */
  lemma ContainmentRecordsApplied(h: Hashing, t: Tables, input: ContainInput, accepted: bool)
    requires Contain(h, t, input, accepted).Ok?
    ensures var t' := Contain(h, t, input, accepted).value;
            && |t'.containments| == |t.containments| + 1 && |t'.states| == |t.states| + 1
            && var row, stop := t'.states[|t.states|], t'.containments[|t.containments|];
               && stop == Containment(input.containmentId, input.moduleId, row.scopeHash, row.state, None)
               && InScope(row, input.moduleId, input.scope)
               && Severity(ActionFor(input.gate)) <= Severity(stop.action)
  {
    var current := Head(t.states, input.moduleId, input.scope).value;
    var t' := Contain(h, t, input, accepted).value;
    InsertExtends(h, t, ContainAdvance(input, current), Some(current), t');
  }

  // --- rollback ---------------------------------------------------------------------------------

  /**
   A committed rollback restores an artifact set that was ACTIVE under the named event, carries the
   new event, never lands in ACTIVE, and happens only on an uncontained scope.
   */
  lemma RollbackRestoresApproved(h: Hashing, read: Tables, t: Tables, input: RollbackInput, accepted: bool)
    requires RollBack(h, read, t, input, accepted).Ok?
    ensures Approved(read.states, input) && input.next != input.prior
    ensures !Contained(t.containments, input.moduleId, h.scopeHash(input.scope))
    ensures var t' := RollBack(h, read, t, input, accepted).value;
            && |t'.states| == |t.states| + 1
            && var row := t'.states[|t.states|];
               && InScope(row, input.moduleId, input.scope) && row.artifact == input.artifact
               && row.event == Some(input.next) && row.state in {Paused, Disabled}
    ensures RollBack(h, read, t, input, accepted).value.rollbacks
         == t.rollbacks + [Rollback(input.rollbackId, input.moduleId, input.artifact, input.prior, input.next)]
  {
    var t' := RollBack(h, read, t, input, accepted).value;
    var current := Head(read.states, input.moduleId, input.scope).value;
    StepShape(h, read, t, DoRollback(input, 0, accepted));
    InsertExtends(h, t, RollbackAdvance(input, current), Head(t.states, input.moduleId, input.scope), t');
  }

  predicate RollbackEventsUnique(rollbacks: seq<Rollback>) {
    forall i, j :: 0 <= i < j < |rollbacks| ==> rollbacks[i].next != rollbacks[j].next && rollbacks[i].id != rollbacks[j].id
  }

  lemma NextKeepsRollbacks(h: Hashing, read: Tables, t: Tables, step: Step)
    requires RollbackEventsUnique(t.rollbacks)
    ensures RollbackEventsUnique(Next(h, read, t, step).rollbacks)
  {
    if step.DoRollback? && Outcome(h, read, t, step).Ok? {
      RollbackRestoresApproved(h, read, t, step.rollback, step.accepted);
    }
  }

  /** No activation event is ever introduced by two rollbacks. */
  lemma {:induction false} RollbackEventsAreNew(h: Hashing, trace: seq<Tables>, steps: seq<Step>, k: nat)
    requires IsTrace(h, trace, steps) && k < |trace|
    ensures RollbackEventsUnique(trace[k].rollbacks)
  {
    if k > 0 {
      RollbackEventsAreNew(h, trace, steps, k - 1);
      TraceStep(h, trace, steps, k - 1);
      NextKeepsRollbacks(h, trace[ReadIndex(steps[k - 1], k - 1)], trace[k - 1], steps[k - 1]);
    }
  }
}
