/**
 Committing alert updates: update row, engine commit and cooldown ledger in one transaction.

 An instant is a count of microseconds, the precision of the ledger's columns. The clock checks in
 the code read whole milliseconds only.
 */
module AlertUpdates {
  import opened Prelude
  import opened Texts
  import opened Fingerprints

  datatype UpdateRow = UpdateRow(id: string, prior: string, kind: UpdateKind, fingerprint: string, key: string,
                                 alertRef: string, outbox: Option<string>, createdAt: int)

  datatype LedgerRow = LedgerRow(alertId: string, severity: real, thesis: nat, evidence: string,
                                 cooldownUntil: int, updatedAt: int)

  /** `notified` holds the outbox ids the delivery engine has accepted. */
  datatype Tables = Tables(updates: seq<UpdateRow>, ledger: map<string, LedgerRow>, notified: seq<string>)

  datatype Engine = Accepts | Suppresses | Throws

  /** One call: the evaluated candidate, the resolved policy's cooldown, the clock, and what lies outside. */
  datatype Input = Input(key: string, prior: string, kind: UpdateKind, fingerprint: string, ledgerKey: string,
                         severity: real, thesis: nat, evidence: string, cooldownSeconds: int,
                         updateId: string, alertId: string, outboxId: string,
                         now: int, readyAt: int, budgetMs: int,
                         classMatches: bool, engine: Engine, rowParses: bool)

  datatype Outcome =
    | Committed(updateId: string, outboxId: string)
    | Deduplicated(updateId: string, outbox: Option<string>)
    | SuppressedLate | SuppressedCooldown | SuppressedByEngine
    | Failed(error: Failure)

  datatype Failure = ClassMismatch | BudgetInvalid | ConstraintViolated | EngineFailed | RowInvalid | CooldownInvalid
                   | LedgerKeyInvalid | EvidenceMissing | StaleLedger

  /** `Date.parse`: whole milliseconds. */
  function Millis(at: int): int { at / 1000 }

  function Elapsed(input: Input): int {
    var d := Millis(input.now) - Millis(input.readyAt);
    if d < 0 then 0 else d
  }

  predicate HasKey(updates: seq<UpdateRow>, key: string) {
    exists i :: 0 <= i < |updates| && updates[i].key == key
  }

  predicate HasId(updates: seq<UpdateRow>, id: string) {
    exists i :: 0 <= i < |updates| && updates[i].id == id
  }

  function RowOf(updates: seq<UpdateRow>, key: string): (row: UpdateRow)
    requires HasKey(updates, key)
    ensures row in updates && row.key == key
  {
    var last := updates[|updates| - 1];
    if last.key == key then last
    else
      assert HasKey(updates[..|updates| - 1], key) by {
        var i :| 0 <= i < |updates| && updates[i].key == key;
        assert updates[..|updates| - 1][i].key == key;
      }
      RowOf(updates[..|updates| - 1], key)
  }

  predicate Cooling(t: Tables, input: Input) {
    input.ledgerKey in t.ledger && Millis(input.now) < Millis(t.ledger[input.ledgerKey].cooldownUntil)
  }

  /** `cooldownUntilFrom`: a whole-millisecond instant. */
  function CooldownUntil(now: int, seconds: int): int { (Millis(now) + seconds * 1000) * 1000 }

  /** `upsertAlertFingerprint`: refused when the stored row is newer. */
  function AdvanceLedger(ledger: map<string, LedgerRow>, input: Input): Result<map<string, LedgerRow>, Failure> {
    if input.cooldownSeconds < 0 then Err(CooldownInvalid)
    else if !IsContentAddress(input.ledgerKey) then Err(LedgerKeyInvalid)
    else if input.evidence == "" then Err(EvidenceMissing)
    else if input.ledgerKey in ledger && input.now < ledger[input.ledgerKey].updatedAt then Err(StaleLedger)
    else Ok(ledger[input.ledgerKey := LedgerRow(input.alertId, input.severity, input.thesis, input.evidence,
                                                CooldownUntil(input.now, input.cooldownSeconds), input.now)])
  }

  function NewRow(input: Input): UpdateRow {
    UpdateRow(input.updateId, input.prior, input.kind, input.fingerprint, input.key, input.alertId, Some(input.outboxId), input.now)
  }

  /** What happens before any table is read. */
  function Precheck(input: Input): Option<Outcome> {
    if !input.classMatches then Some(Failed(ClassMismatch))
    else if input.budgetMs <= 0 then Some(Failed(BudgetInvalid))
    else if Elapsed(input) > input.budgetMs then Some(SuppressedLate)
    else None
  }

  /** `commitAlertUpdate`: the tables after the call, and what it returns. */
  function Commit(t: Tables, input: Input): (Tables, Outcome) {
    var early := Precheck(input);
    if early.Some? then (t, early.value)
    else if HasKey(t.updates, input.key) then
      var row := RowOf(t.updates, input.key);
      (t, Deduplicated(row.id, row.outbox))
    else if Cooling(t, input) then (t, SuppressedCooldown)
    else if HasId(t.updates, input.updateId) || input.updateId == "" then (t, Failed(ConstraintViolated))
    else if input.engine.Throws? then (t, Failed(EngineFailed))
    else if input.engine.Suppresses? then (t, SuppressedByEngine)
    else if !input.rowParses then (t, Failed(RowInvalid))
    else
      var ledger := AdvanceLedger(t.ledger, input);
      if ledger.Err? then (t, Failed(ledger.error))
      else (Tables(t.updates + [NewRow(input)], ledger.value, t.notified + [input.outboxId]), Committed(input.updateId, input.outboxId))
  }

  // --- every run --------------------------------------------------------------------------------

  /** A serial run from empty tables. */
  predicate IsRun(trace: seq<Tables>, inputs: seq<Input>) {
    && |trace| == |inputs| + 1
    && trace[0] == Tables([], map[], [])
    && forall k {:trigger inputs[k]} :: 0 <= k < |inputs| ==> trace[k + 1] == Commit(trace[k], inputs[k]).0
  }

  predicate CommitsAt(trace: seq<Tables>, inputs: seq<Input>, k: nat)
    requires k < |inputs| < |trace|
  {
    Commit(trace[k], inputs[k]).1.Committed?
  }

  /** One row per idempotency key, and exactly one notification per row. */
  predicate OneNotificationPerKey(t: Tables) {
    && (forall i, j :: 0 <= i < j < |t.updates| ==> t.updates[i].key != t.updates[j].key && t.updates[i].id != t.updates[j].id)
    && |t.notified| == |t.updates|
    && forall i :: 0 <= i < |t.updates| ==> t.updates[i].outbox == Some(t.notified[i])
  }

  /** Every ledger row's cooldown ends no earlier than the millisecond it was written in. */
  predicate LedgerSound(t: Tables) {
    forall f :: f in t.ledger ==> Millis(t.ledger[f].updatedAt) <= Millis(t.ledger[f].cooldownUntil)
  }

  lemma CommitKeeps(t: Tables, input: Input)
    requires OneNotificationPerKey(t) && LedgerSound(t)
    ensures OneNotificationPerKey(Commit(t, input).0) && LedgerSound(Commit(t, input).0)
    ensures t.updates <= Commit(t, input).0.updates
    ensures !Commit(t, input).1.Committed? ==> Commit(t, input).0 == t
  {
  }

  lemma {:induction false} RunKeeps(trace: seq<Tables>, inputs: seq<Input>, k: nat)
    requires IsRun(trace, inputs) && k < |trace|
    ensures OneNotificationPerKey(trace[k]) && LedgerSound(trace[k])
  {
    if k > 0 {
      RunKeeps(trace, inputs, k - 1);
      var input := inputs[k - 1];
      CommitKeeps(trace[k - 1], input);
    }
  }

  lemma {:induction false} UpdatesGrow(trace: seq<Tables>, inputs: seq<Input>, j: nat, k: nat)
    requires IsRun(trace, inputs) && j <= k < |trace|
    ensures trace[j].updates <= trace[k].updates
    decreases k
  {
    if j < k {
      UpdatesGrow(trace, inputs, j, k - 1);
      RunKeeps(trace, inputs, k - 1);
      var input := inputs[k - 1];
      CommitKeeps(trace[k - 1], input);
    }
  }

  /** A replay after a commit changes nothing and names the committed row. */
  lemma ReplayIsDeduplicated(trace: seq<Tables>, inputs: seq<Input>, j: nat, k: nat)
    requires IsRun(trace, inputs) && j < k < |inputs| && CommitsAt(trace, inputs, j)
    requires inputs[k].key == inputs[j].key && Precheck(inputs[k]).None?
    ensures Commit(trace[k], inputs[k]) == (trace[k], Deduplicated(inputs[j].updateId, Some(inputs[j].outboxId)))
  {
    UpdatesGrow(trace, inputs, j + 1, k);
    RunKeeps(trace, inputs, k);
    var n, updates := |trace[j].updates|, trace[k].updates;
    assert trace[j + 1].updates[n] == NewRow(inputs[j]);
    assert updates[n] == NewRow(inputs[j]);
    var row := RowOf(updates, inputs[k].key);
    var i :| 0 <= i < |updates| && updates[i] == row;
    assert i == n;
  }

  // --- cooldown ---------------------------------------------------------------------------------

  /** The ledger says the last commit under this fingerprint closed at `until` at the earliest. */
  predicate ClosedUntil(t: Tables, f: string, until: int) {
    f in t.ledger && until <= Millis(t.ledger[f].cooldownUntil)
  }

  lemma CooldownNeverShrinks(t: Tables, input: Input, f: string, until: int)
    requires ClosedUntil(t, f, until)
    ensures ClosedUntil(Commit(t, input).0, f, until)
  {
  }

  lemma {:induction false} ClosedFromThenOn(trace: seq<Tables>, inputs: seq<Input>, j: nat, k: nat, f: string, until: int)
    requires IsRun(trace, inputs) && j <= k < |trace| && ClosedUntil(trace[j], f, until)
    ensures ClosedUntil(trace[k], f, until)
    decreases k
  {
    if j < k {
      ClosedFromThenOn(trace, inputs, j, k - 1, f, until);
      var input := inputs[k - 1];
      CooldownNeverShrinks(trace[k - 1], input, f, until);
    }
  }

  /** Two committed updates under one prior fingerprint are at least the first one's cooldown apart. */
  lemma CommitsAreApart(trace: seq<Tables>, inputs: seq<Input>, j: nat, k: nat)
    requires IsRun(trace, inputs) && j < k < |inputs| && CommitsAt(trace, inputs, j) && CommitsAt(trace, inputs, k)
    requires inputs[j].ledgerKey == inputs[k].ledgerKey
    ensures Millis(inputs[k].now) >= Millis(inputs[j].now) + inputs[j].cooldownSeconds * 1000
  {
    var until := Millis(inputs[j].now) + inputs[j].cooldownSeconds * 1000;
    assert Millis(until * 1000) == until;
    assert ClosedUntil(trace[j + 1], inputs[j].ledgerKey, until);
    ClosedFromThenOn(trace, inputs, j + 1, k, inputs[j].ledgerKey, until);
  }

  // --- every answer, told from the calls --------------------------------------------------------

  /** The call concerns the class of its prior alert, under a positive budget that has not run out. */
  predicate InTime(input: Input) {
    && input.classMatches && input.budgetMs > 0
    && (Millis(input.now) - Millis(input.readyAt) <= input.budgetMs)
  }

  /** The last committed call before `k` under a prior fingerprint. */
  predicate LastUnder(trace: seq<Tables>, inputs: seq<Input>, j: nat, k: nat, f: string)
    requires k <= |inputs| < |trace|
  {
    && j < k && CommitsAt(trace, inputs, j) && inputs[j].ledgerKey == f
    && forall i :: j < i < k && CommitsAt(trace, inputs, i) ==> inputs[i].ledgerKey != f
  }

  predicate KeyTaken(trace: seq<Tables>, inputs: seq<Input>, k: nat, key: string)
    requires k <= |inputs| < |trace|
  {
    exists j :: 0 <= j < k && CommitsAt(trace, inputs, j) && inputs[j].key == key
  }

  predicate IdTaken(trace: seq<Tables>, inputs: seq<Input>, k: nat, id: string)
    requires k <= |inputs| < |trace|
  {
    exists j :: 0 <= j < k && CommitsAt(trace, inputs, j) && inputs[j].updateId == id
  }

  /** A committed call closed the fingerprint for its own cooldown, and that time is not over. */
  predicate Closed(input: Input, earlier: Input) {
    Millis(input.now) < Millis(earlier.now) + earlier.cooldownSeconds * 1000
  }

  /** A commit appends one row, notifies once, and opens a cooldown of the given seconds at the given instant. */
  lemma CommitWrites(t: Tables, input: Input)
    requires Commit(t, input).1.Committed?
    ensures Commit(t, input).1 == Committed(input.updateId, input.outboxId)
    ensures Commit(t, input).0
         == Tables(t.updates + [UpdateRow(input.updateId, input.prior, input.kind, input.fingerprint, input.key,
                                          input.alertId, Some(input.outboxId), input.now)],
                   t.ledger[input.ledgerKey := WrittenBy(input)], t.notified + [input.outboxId])
  {
  }

  /** The ledger row of a committed call. */
  function WrittenBy(input: Input): (row: LedgerRow)
    ensures Millis(row.cooldownUntil) == Millis(input.now) + input.cooldownSeconds * 1000
  {
    var until := Millis(input.now) + input.cooldownSeconds * 1000;
    LedgerRow(input.alertId, input.severity, input.thesis, input.evidence, until * 1000, input.now)
  }

  lemma StepOf(trace: seq<Tables>, inputs: seq<Input>, k: nat)
    requires IsRun(trace, inputs) && k < |inputs|
    ensures trace[k + 1] == Commit(trace[k], inputs[k]).0
    ensures !CommitsAt(trace, inputs, k) ==> trace[k + 1] == trace[k]
  {
    var input := inputs[k];
    assert trace[k + 1] == Commit(trace[k], input).0;
  }

  /** The ledger holds what the last committed call under each fingerprint left. */
  lemma {:induction false} LedgerFollows(trace: seq<Tables>, inputs: seq<Input>, k: nat, f: string)
    requires IsRun(trace, inputs) && k <= |inputs|
    ensures f in trace[k].ledger <==> exists j: nat :: LastUnder(trace, inputs, j, k, f)
    ensures forall j: nat :: LastUnder(trace, inputs, j, k, f) ==> f in trace[k].ledger && trace[k].ledger[f] == WrittenBy(inputs[j])
  {
    if k > 0 {
      var p := k - 1;
      LedgerFollows(trace, inputs, p, f);
      StepOf(trace, inputs, p);
      if CommitsAt(trace, inputs, p) { CommitWrites(trace[p], inputs[p]); }
      if CommitsAt(trace, inputs, p) && inputs[p].ledgerKey == f {
        assert LastUnder(trace, inputs, p, k, f);
      } else {
        forall j: nat ensures LastUnder(trace, inputs, j, k, f) <==> LastUnder(trace, inputs, j, p, f) {}
      }
    }
  }

  lemma {:induction false} RowsFollow(trace: seq<Tables>, inputs: seq<Input>, k: nat, key: string, id: string)
    requires IsRun(trace, inputs) && k <= |inputs|
    ensures HasKey(trace[k].updates, key) <==> KeyTaken(trace, inputs, k, key)
    ensures HasId(trace[k].updates, id) <==> IdTaken(trace, inputs, k, id)
  {
    if k > 0 {
      var p := k - 1;
      RowsFollow(trace, inputs, p, key, id);
      StepOf(trace, inputs, p);
      if CommitsAt(trace, inputs, p) {
        CommitWrites(trace[p], inputs[p]);
        Appended(trace[p].updates, trace[k].updates[|trace[p].updates|], key, id);
      }
    }
  }

  lemma Appended(updates: seq<UpdateRow>, row: UpdateRow, key: string, id: string)
    ensures HasKey(updates + [row], key) <==> HasKey(updates, key) || row.key == key
    ensures HasId(updates + [row], id) <==> HasId(updates, id) || row.id == id
  {
    var longer := updates + [row];
    assert longer[|updates|] == row && forall i :: 0 <= i < |updates| ==> longer[i] == updates[i];
  }

  lemma CoolingIff(trace: seq<Tables>, inputs: seq<Input>, k: nat)
    requires IsRun(trace, inputs) && k < |inputs|
    ensures Cooling(trace[k], inputs[k])
       <==> exists j: nat :: LastUnder(trace, inputs, j, k, inputs[k].ledgerKey) && Closed(inputs[k], inputs[j])
  {
    LedgerFollows(trace, inputs, k, inputs[k].ledgerKey);
  }

  /**
   In every run, a timely call with an unused key is suppressed by the cooldown exactly when the last
   committed call under its prior fingerprint closed it for longer than has passed.
   */
  lemma CooldownSuppressesIff(trace: seq<Tables>, inputs: seq<Input>, k: nat)
    requires IsRun(trace, inputs) && k < |inputs|
    ensures Commit(trace[k], inputs[k]).1 == SuppressedCooldown <==>
            && InTime(inputs[k]) && !KeyTaken(trace, inputs, k, inputs[k].key)
            && exists j: nat :: LastUnder(trace, inputs, j, k, inputs[k].ledgerKey)
                 && Millis(inputs[k].now) < Millis(inputs[j].now) + inputs[j].cooldownSeconds * 1000
  {
    RowsFollow(trace, inputs, k, inputs[k].key, inputs[k].updateId);
    CoolingIff(trace, inputs, k);
  }

  /** What one call must bring along to be committed, whatever happened before. */
  predicate Acceptable(input: Input) {
    && InTime(input) && input.updateId != "" && input.engine == Accepts && input.rowParses
    && input.cooldownSeconds >= 0 && IsContentAddress(input.ledgerKey) && input.evidence != ""
  }

  /** In every run, a call commits exactly when it is acceptable, its key and id are new, and its fingerprint is open again. */
  lemma CommitsIff(trace: seq<Tables>, inputs: seq<Input>, k: nat)
    requires IsRun(trace, inputs) && k < |inputs|
    ensures CommitsAt(trace, inputs, k) <==>
            && Acceptable(inputs[k])
            && !KeyTaken(trace, inputs, k, inputs[k].key) && !IdTaken(trace, inputs, k, inputs[k].updateId)
            && forall j: nat :: LastUnder(trace, inputs, j, k, inputs[k].ledgerKey) ==>
                 && Millis(inputs[k].now) >= Millis(inputs[j].now) + inputs[j].cooldownSeconds * 1000
                 && inputs[k].now >= inputs[j].now
  {
    RowsFollow(trace, inputs, k, inputs[k].key, inputs[k].updateId);
    CoolingIff(trace, inputs, k);
    LedgerFollows(trace, inputs, k, inputs[k].ledgerKey);
  }

  /** The other answers: too late, or known already. */
  lemma LateOrKnownIff(trace: seq<Tables>, inputs: seq<Input>, k: nat)
    requires IsRun(trace, inputs) && k < |inputs|
    ensures Commit(trace[k], inputs[k]).1 == SuppressedLate <==>
            && inputs[k].classMatches && inputs[k].budgetMs > 0
            && Millis(inputs[k].now) - Millis(inputs[k].readyAt) > inputs[k].budgetMs
    ensures Commit(trace[k], inputs[k]).1.Deduplicated? <==> InTime(inputs[k]) && KeyTaken(trace, inputs, k, inputs[k].key)
    ensures !CommitsAt(trace, inputs, k) ==> Commit(trace[k], inputs[k]).0 == trace[k]
  {
    RowsFollow(trace, inputs, k, inputs[k].key, inputs[k].updateId);
  }

  // --- the stale-ledger refusal -----------------------------------------------------------------

  /** The stored row was written later in the very millisecond of this call, under a zero cooldown. */
  predicate SubMillisecondRewind(t: Tables, input: Input) {
    && input.ledgerKey in t.ledger
    && var row := t.ledger[input.ledgerKey];
       input.now < row.updatedAt && Millis(input.now) == Millis(row.updatedAt) == Millis(row.cooldownUntil)
  }

  /** Past the cooldown check, the ledger write is stale exactly in that case. */
  lemma StaleIff(trace: seq<Tables>, inputs: seq<Input>, k: nat)
    requires IsRun(trace, inputs) && k < |inputs| && !Cooling(trace[k], inputs[k])
    ensures AdvanceLedger(trace[k].ledger, inputs[k]) == Err(StaleLedger) <==>
            && inputs[k].cooldownSeconds >= 0 && IsContentAddress(inputs[k].ledgerKey) && inputs[k].evidence != ""
            && SubMillisecondRewind(trace[k], inputs[k])
  {
    RunKeeps(trace, inputs, k);
  }

  predicate WholeMillisecond(at: int) { at % 1000 == 0 }

  lemma {:induction false} LedgerWhole(trace: seq<Tables>, inputs: seq<Input>, k: nat, f: string)
    requires IsRun(trace, inputs) && k < |trace| && f in trace[k].ledger
    requires forall j :: 0 <= j < k ==> WholeMillisecond(inputs[j].now)
    ensures WholeMillisecond(trace[k].ledger[f].updatedAt)
  {
    var input := inputs[k - 1];
    if f in trace[k - 1].ledger {
      LedgerWhole(trace, inputs, k - 1, f);
    }
  }

  /** With a millisecond clock the refusal is unreachable. */
  lemma NeverStaleOnMillisecondClock(trace: seq<Tables>, inputs: seq<Input>, k: nat)
    requires IsRun(trace, inputs) && k < |inputs| && forall j :: 0 <= j <= k ==> WholeMillisecond(inputs[j].now)
    ensures Commit(trace[k], inputs[k]).1 != Failed(StaleLedger)
  {
    if inputs[k].ledgerKey in trace[k].ledger {
      LedgerWhole(trace, inputs, k, inputs[k].ledgerKey);
      RunKeeps(trace, inputs, k);
    }
  }

  lemma {:induction false} LedgerPositive(trace: seq<Tables>, inputs: seq<Input>, k: nat, f: string)
    requires IsRun(trace, inputs) && k < |trace| && f in trace[k].ledger
    requires forall j :: 0 <= j < k ==> inputs[j].cooldownSeconds > 0
    ensures Millis(trace[k].ledger[f].updatedAt) < Millis(trace[k].ledger[f].cooldownUntil)
  {
    var input := inputs[k - 1];
    if f in trace[k - 1].ledger {
      LedgerPositive(trace, inputs, k - 1, f);
    }
  }

  /** With positive cooldowns it is unreachable on any clock. */
  lemma NeverStaleWithCooldown(trace: seq<Tables>, inputs: seq<Input>, k: nat)
    requires IsRun(trace, inputs) && k < |inputs| && forall j :: 0 <= j < k ==> inputs[j].cooldownSeconds > 0
    ensures Commit(trace[k], inputs[k]).1 != Failed(StaleLedger)
  {
    if inputs[k].ledgerKey in trace[k].ledger {
      LedgerPositive(trace, inputs, k, inputs[k].ledgerKey);
      RunKeeps(trace, inputs, k);
    }
  }

  function Sample(key: string, id: string, ledgerKey: string, now: int): Input {
    Input(key, "p", Risk, "f", ledgerKey, 0.5, 1, "e", 0, id, id, id, now, now, 1, true, Accepts, true)
  }

  /** It is reachable otherwise: two instants of one millisecond, in reverse, under a zero cooldown. */
  lemma StaleIsReachable(ledgerKey: string)
    requires IsContentAddress(ledgerKey)
    ensures exists trace ::
              var inputs := [Sample("a", "a", ledgerKey, 900), Sample("b", "b", ledgerKey, 500)];
              IsRun(trace, inputs) && Commit(trace[1], inputs[1]).1 == Failed(StaleLedger)
  {
    var a, b := Sample("a", "a", ledgerKey, 900), Sample("b", "b", ledgerKey, 500);
    var inputs := [a, b];
    var t0 := Tables([], map[], []);
    var t1 := Commit(t0, a).0;
    assert t1.updates == [NewRow(a)];
    assert "a"[0] != "b"[0];
    assert !HasKey(t1.updates, "b") && !HasId(t1.updates, "b");
    var trace := [t0, t1, Commit(t1, b).0];
    assert IsRun(trace, inputs);
  }

  // --- the transaction --------------------------------------------------------------------------

  class AlertStore {
    var updates: seq<UpdateRow>
    var ledger: map<string, LedgerRow>
    var notified: seq<string>

    function Contents(): Tables
      reads this
    {
      Tables(updates, ledger, notified)
    }

    constructor ()
      ensures Contents() == Tables([], map[], [])
    {
      updates, ledger, notified := [], map[], [];
    }

    method Rollback(before: Tables)
      modifies this
      ensures Contents() == before
    {
      updates, ledger, notified := before.updates, before.ledger, before.notified;
    }

    /** `SELECT ... WHERE idempotency_key`. */
    method FindByKey(key: string) returns (row: Option<UpdateRow>)
      ensures row.None? <==> !HasKey(updates, key)
      ensures row.Some? ==> row.value == RowOf(updates, key)
    {
      row := None;
      for i := 0 to |updates|
        invariant row.None? <==> !HasKey(updates[..i], key)
        invariant row.Some? ==> HasKey(updates[..i], key) && row.value == RowOf(updates[..i], key)
      {
        assert updates[..i + 1][..i] == updates[..i];
        KeyStep(updates, i, key);
        if updates[i].key == key {
          row := Some(updates[i]);
        }
      }
      assert updates[..|updates|] == updates;
    }

    /** `commitAlertUpdate`: the row goes in first, and every later refusal takes it out again. */
    method CommitAlertUpdate(input: Input) returns (outcome: Outcome)
      modifies this
      ensures (Contents(), outcome) == Commit(old(Contents()), input)
    {
      var early := Precheck(input);
      if early.Some? { return early.value; }
      var before := Contents();
      var existing := FindByKey(input.key);
      if existing.Some? { return Deduplicated(existing.value.id, existing.value.outbox); }
      if input.ledgerKey in ledger && Millis(input.now) < Millis(ledger[input.ledgerKey].cooldownUntil) {
        return SuppressedCooldown;
      }
      if HasId(updates, input.updateId) || input.updateId == "" { return Failed(ConstraintViolated); }
      var index := |updates|;
      updates := updates + [NewRow(input).(outbox := None)];
      match input.engine {
        case Throws =>
          Rollback(before);
          return Failed(EngineFailed);
        case Suppresses =>
          Rollback(before);
          return SuppressedByEngine;
        case Accepts =>
          notified := notified + [input.outboxId];
      }
      updates := updates[index := updates[index].(outbox := Some(input.outboxId))];
      assert updates == before.updates + [NewRow(input)];
      if !input.rowParses {
        Rollback(before);
        return Failed(RowInvalid);
      }
      var advanced := AdvanceLedger(ledger, input);
      if advanced.Err? {
        Rollback(before);
        return Failed(advanced.error);
      }
      ledger := advanced.value;
      outcome := Committed(input.updateId, input.outboxId);
    }
  }

  lemma KeyStep(updates: seq<UpdateRow>, i: nat, key: string)
    requires i < |updates|
    ensures HasKey(updates[..i + 1], key) <==> HasKey(updates[..i], key) || updates[i].key == key
  {
    var longer, shorter := updates[..i + 1], updates[..i];
    assert longer[i] == updates[i] && forall j :: 0 <= j < i ==> longer[j] == shorter[j];
  }
}
