/**
 Reserve/commit/release ledger of the cost router.

 The SQL tables of the cost ledgers are one value, `Tables`; each `engine.transaction` is one
 function from tables to tables that either commits or refuses and leaves them alone. `Database`
 holds the tables in fields and `Adapter` runs the transactions in place against them.
 */
module Quota {
  import opened Prelude
  import Texts

  datatype WorkloadClass = InteractiveHigh | RiskMonitorHigh | ScheduledNormal | EvaluationLow | BackfillLow

  datatype ReserveId = RiskMonitoring | AlertVerification | InteractiveMcp | EmergencyBackfill

  /** A row of `cost_quota_balances` (General) or of `cost_reserve_buckets` (Protected). */
  datatype BucketKey =
    | General(provider: string, model: string, window: int)
    | Protected(reserve: ReserveId, provider: string, model: string, window: int)

  datatype Bucket = Bucket(resetAt: int, cap: real, reserved: real, committed: real) {
    function Remaining(): real { cap - reserved - committed }
  }

  datatype UsageState = Reserved | Committed | Released

  datatype Counter = Counter(bucket: BucketKey, workload: WorkloadClass, reservedUnits: real,
                             committedUnits: Option<real>, state: UsageState)

  datatype Reservation = Reservation(runId: string, stage: string, actor: string, provider: string,
                                     operation: string, workload: WorkloadClass, estimated: real,
                                     actual: Option<real>, state: UsageState)

  datatype Tables = Tables(buckets: map<BucketKey, Bucket>, counters: map<string, Counter>,
                           reservations: map<string, Reservation>)

  /** What `admit` remembers for a provider and operation until `reserve` reads it. */
  datatype Context = Context(reserve: Option<ReserveId>, window: Option<int>)

  datatype Request = Request(runId: string, stage: string, actor: string, provider: string,
                             operation: string, workload: WorkloadClass, model: string, units: real)

  datatype Refusal = UnknownCost | QuotaExhausted | ConstraintViolated | InvalidActualUnits | TransitionIllegal

  function BucketOf(request: Request, reserve: Option<ReserveId>, window: int): BucketKey {
    match reserve
    case None => General(request.provider, request.model, window)
    case Some(id) => Protected(id, request.provider, request.model, window)
  }

  /** The `cost_no_reserve_invasion` constraint. */
  predicate NoInvasion(bucket: BucketKey, workload: WorkloadClass) {
    match bucket
    case General(_, _, _) => true
    case Protected(reserve, _, _, _) =>
      if reserve == InteractiveMcp then workload == InteractiveHigh else workload == RiskMonitorHigh
  }

  /** Column constraints of `core_quota_reservations`. */
  predicate WellFormed(request: Request) {
    && request.runId != "" && request.stage != "" && request.actor != ""
    && request.provider != "" && request.operation != ""
    && request.units >= 0.0
  }

  predicate Holds(t: Tables, id: string, runId: string, stage: string) {
    id in t.reservations && t.reservations[id].runId == runId && t.reservations[id].stage == stage
  }

  /** Is a reservation already recorded for this run and stage? */
  predicate Recorded(t: Tables, runId: string, stage: string) {
    exists id :: id in t.reservations && Holds(t, id, runId, stage)
  }

  // --- the three transactions ---------------------------------------------------------------

  function NewReservation(request: Request): Reservation {
    Reservation(request.runId, request.stage, request.actor, request.provider, request.operation,
                request.workload, request.units, None, Reserved)
  }

  /** `reserve` for a run and stage that has no reservation yet; `id` is the fresh random id. */
  function ReserveNew(t: Tables, context: Context, request: Request, id: string): Result<Tables, Refusal> {
    if context.window.None? then
      if id in t.reservations || !WellFormed(request) then Err(ConstraintViolated)
      else Ok(t.(reservations := t.reservations[id := NewReservation(request)]))
    else
      var key := BucketOf(request, context.reserve, context.window.value);
      if key !in t.buckets || t.buckets[key].Remaining() < request.units then Err(QuotaExhausted)
      else if id in t.reservations || id in t.counters || !WellFormed(request) || !NoInvasion(key, request.workload) then
        Err(ConstraintViolated)
      else
        var bucket := t.buckets[key];
        Ok(Tables(t.buckets[key := bucket.(reserved := bucket.reserved + request.units)],
                  t.counters[id := Counter(key, request.workload, request.units, None, Reserved)],
                  t.reservations[id := NewReservation(request)]))
  }

  /** `commit`: settle the metered part if it is still reserved, then the reservation itself. */
  function Commit(t: Tables, id: string, actual: real): Result<Tables, Refusal> {
    if actual < 0.0 then Err(InvalidActualUnits)
    else if id in t.counters && t.counters[id].state == Reserved then
      var row := t.counters[id];
      if row.bucket !in t.buckets then Err(QuotaExhausted)
      else
        var bucket := t.buckets[row.bucket];
        if bucket.reserved < row.reservedUnits || bucket.Remaining() + row.reservedUnits < actual then
          Err(QuotaExhausted)
        else
          var bucket' := bucket.(reserved := bucket.reserved - row.reservedUnits, committed := bucket.committed + actual);
          SettleCommitted(t.(buckets := t.buckets[row.bucket := bucket'],
                             counters := t.counters[id := row.(state := Committed, committedUnits := Some(actual))]),
                          id, actual)
    else SettleCommitted(t, id, actual)
  }

  function SettleCommitted(t: Tables, id: string, actual: real): Result<Tables, Refusal> {
    if id !in t.reservations || t.reservations[id].state != Reserved then Err(TransitionIllegal)
    else Ok(t.(reservations := t.reservations[id := t.reservations[id].(state := Committed, actual := Some(actual))]))
  }

  /** The guard of the balance update in `release`; when it fails the update touches no row. */
  predicate ReleaseGuard(t: Tables, row: Counter) {
    row.bucket in t.buckets && t.buckets[row.bucket].reserved >= row.reservedUnits
  }

  function Release(t: Tables, id: string): Result<Tables, Refusal> {
    if id in t.counters && t.counters[id].state == Reserved then
      var row := t.counters[id];
      var buckets' :=
        if ReleaseGuard(t, row) then
          var bucket := t.buckets[row.bucket];
          t.buckets[row.bucket := bucket.(reserved := bucket.reserved - row.reservedUnits)]
        else t.buckets;
      SettleReleased(t.(buckets := buckets', counters := t.counters[id := row.(state := Released)]), id)
    else SettleReleased(t, id)
  }

  function SettleReleased(t: Tables, id: string): Result<Tables, Refusal> {
    if id !in t.reservations || t.reservations[id].state != Reserved then Err(TransitionIllegal)
    else Ok(t.(reservations := t.reservations[id := t.reservations[id].(state := Released)]))
  }

  // --- runs -----------------------------------------------------------------------------------

  /** One caller's transaction; contexts are whatever some earlier admission left behind. */
  datatype Step =
    | DoReserve(context: Context, request: Request, freshId: string)
    | DoCommit(id: string, actual: real)
    | DoRelease(id: string)

  /** The tables after one transaction, whether it commits or is rolled back. */
  function Next(t: Tables, step: Step): Tables {
    var outcome :=
      match step
      case DoReserve(context, request, freshId) =>
        if Recorded(t, request.runId, request.stage) then Ok(t) else ReserveNew(t, context, request, freshId)
      case DoCommit(id, actual) => Commit(t, id, actual)
      case DoRelease(id) => Release(t, id);
    if outcome.Ok? then outcome.value else t
  }

  function Run(t: Tables, steps: seq<Step>): Tables
    decreases |steps|
  {
    if steps == [] then t else Run(Next(t, steps[0]), steps[1..])
  }

  // --- accounting -----------------------------------------------------------------------------

  datatype Measure = HeldIn(bucket: BucketKey) | SpentIn(bucket: BucketKey)

  function Weight(measure: Measure, row: Counter): real {
    match measure
    case HeldIn(b) => if row.bucket == b && row.state == Reserved then row.reservedUnits else 0.0
    case SpentIn(b) =>
      if row.bucket == b && row.state == Committed && row.committedUnits.Some? then row.committedUnits.value else 0.0
  }

  /** The SQL aggregate `sum(...)` over all usage counters. */
  ghost function Total(measure: Measure, rows: map<string, Counter>): real {
    if rows == map[] then 0.0
    else
      var id :| id in rows;
      Weight(measure, rows[id]) + Total(measure, rows - {id})
  }

  ghost predicate Accounted(t: Tables, key: BucketKey)
    requires key in t.buckets
  {
    && t.buckets[key].reserved == Total(HeldIn(key), t.counters)
    && t.buckets[key].committed == Total(SpentIn(key), t.counters)
    && t.buckets[key].Remaining() >= 0.0
  }

  /** A metered reservation and its counter agree on state, units and workload. */
  predicate Paired(t: Tables, id: string)
    requires id in t.counters
  {
    var row := t.counters[id];
    && id in t.reservations
    && t.reservations[id].state == row.state
    && t.reservations[id].estimated == row.reservedUnits
    && t.reservations[id].actual == row.committedUnits
    && t.reservations[id].workload == row.workload
    && (row.committedUnits.Some? <==> row.state == Committed)
    && (row.committedUnits.Some? ==> row.committedUnits.value >= 0.0)
    && row.reservedUnits >= 0.0
    && row.bucket in t.buckets
    && NoInvasion(row.bucket, row.workload)
  }

  predicate OnePerStage(t: Tables) {
    forall i, j :: i in t.reservations && j in t.reservations
      && t.reservations[i].runId == t.reservations[j].runId && t.reservations[i].stage == t.reservations[j].stage
      ==> i == j
  }

  ghost predicate Invariant(t: Tables) {
    && (forall key :: key in t.buckets ==> Accounted(t, key))
    && (forall id :: id in t.counters ==> Paired(t, id))
    && OnePerStage(t)
  }

  lemma {:induction false} TotalWithout(measure: Measure, rows: map<string, Counter>, id: string)
    requires id in rows
    ensures Total(measure, rows) == Weight(measure, rows[id]) + Total(measure, rows - {id})
    decreases |rows|
  {
    var first :| first in rows && Total(measure, rows) == Weight(measure, rows[first]) + Total(measure, rows - {first});
    if first != id {
      TotalWithout(measure, rows - {first}, id);
      TotalWithout(measure, rows - {id}, first);
      assert rows - {first} - {id} == rows - {id} - {first};
    }
  }

  /** Changing or adding one counter moves a total by the difference of its weights. */
  lemma TotalUpdate(measure: Measure, rows: map<string, Counter>, id: string, row: Counter)
    ensures Total(measure, rows[id := row])
         == Total(measure, rows) - (if id in rows then Weight(measure, rows[id]) else 0.0) + Weight(measure, row)
  {
    TotalWithout(measure, rows[id := row], id);
    assert rows[id := row] - {id} == rows - {id};
    if id in rows {
      TotalWithout(measure, rows, id);
    } else {
      assert rows - {id} == rows;
    }
  }

  lemma {:induction false} TotalBounds(measure: Measure, rows: map<string, Counter>, id: string)
    requires forall i :: i in rows ==> Weight(measure, rows[i]) >= 0.0
    requires id in rows
    ensures Total(measure, rows) >= Weight(measure, rows[id])
    decreases |rows|
  {
    TotalWithout(measure, rows, id);
    if rows - {id} != map[] {
      var other :| other in rows - {id};
      TotalBounds(measure, rows - {id}, other);
    }
  }

  lemma AccountedUpdate(t: Tables, t': Tables, id: string, row: Counter, key: BucketKey)
    requires key in t.buckets && Accounted(t, key)
    requires key in t'.buckets && t'.counters == t.counters[id := row]
    requires var before := if id in t.counters then Weight(HeldIn(key), t.counters[id]) else 0.0;
             t'.buckets[key].reserved == t.buckets[key].reserved - before + Weight(HeldIn(key), row)
    requires var before := if id in t.counters then Weight(SpentIn(key), t.counters[id]) else 0.0;
             t'.buckets[key].committed == t.buckets[key].committed - before + Weight(SpentIn(key), row)
    requires t'.buckets[key].Remaining() >= 0.0
    ensures Accounted(t', key)
  {
    TotalUpdate(HeldIn(key), t.counters, id, row);
    TotalUpdate(SpentIn(key), t.counters, id, row);
  }

  lemma ReserveKeepsInvariant(t: Tables, context: Context, request: Request, id: string)
    requires Invariant(t) && !Recorded(t, request.runId, request.stage)
    requires ReserveNew(t, context, request, id).Ok?
    ensures Invariant(ReserveNew(t, context, request, id).value)
  {
    var t' := ReserveNew(t, context, request, id).value;
    assert OnePerStage(t') by {
      forall i | i in t.reservations ensures !Holds(t, i, request.runId, request.stage) {}
    }
    assert forall i :: i in t.counters ==> Paired(t, i);
    forall i | i in t'.counters ensures Paired(t', i) {
      if i != id { assert Paired(t, i); }
    }
    forall key | key in t'.buckets ensures Accounted(t', key) {
      assert Accounted(t, key);
      if context.window.Some? {
        AccountedUpdate(t, t', id, t'.counters[id], key);
      }
    }
  }

  /** The reserved units of a live counter are still on its bucket, so the release guard holds. */
  lemma ReleaseGuardHolds(t: Tables, id: string)
    requires Invariant(t) && id in t.counters && t.counters[id].state == Reserved
    ensures ReleaseGuard(t, t.counters[id])
  {
    assert Paired(t, id);
    var key := t.counters[id].bucket;
    assert Accounted(t, key);
    forall i | i in t.counters ensures Weight(HeldIn(key), t.counters[i]) >= 0.0 {
      assert Paired(t, i);
    }
    TotalBounds(HeldIn(key), t.counters, id);
  }

  lemma CommitKeepsPaired(t: Tables, id: string, actual: real)
    requires Invariant(t) && Commit(t, id, actual).Ok?
    ensures forall i :: i in Commit(t, id, actual).value.counters ==> Paired(Commit(t, id, actual).value, i)
  {
    var t' := Commit(t, id, actual).value;
    forall i | i in t'.counters ensures Paired(t', i) {
      assert Paired(t, i);
    }
  }

  lemma CommitKeepsAccounts(t: Tables, id: string, actual: real, key: BucketKey)
    requires Invariant(t) && Commit(t, id, actual).Ok? && key in Commit(t, id, actual).value.buckets
    ensures Accounted(Commit(t, id, actual).value, key)
  {
    var t' := Commit(t, id, actual).value;
    assert Accounted(t, key);
    if t'.counters != t.counters {
      AccountedUpdate(t, t', id, t'.counters[id], key);
    }
  }

  lemma CommitKeepsInvariant(t: Tables, id: string, actual: real)
    requires Invariant(t) && Commit(t, id, actual).Ok?
    ensures Invariant(Commit(t, id, actual).value)
  {
    var t' := Commit(t, id, actual).value;
    CommitKeepsPaired(t, id, actual);
    forall key | key in t'.buckets ensures Accounted(t', key) {
      CommitKeepsAccounts(t, id, actual, key);
    }
    assert OnePerStage(t');
  }

  lemma ReleaseKeepsPaired(t: Tables, id: string)
    requires Invariant(t) && Release(t, id).Ok?
    ensures forall i :: i in Release(t, id).value.counters ==> Paired(Release(t, id).value, i)
  {
    var t' := Release(t, id).value;
    forall i | i in t'.counters ensures Paired(t', i) {
      assert Paired(t, i);
    }
  }

  lemma ReleaseKeepsAccounts(t: Tables, id: string, key: BucketKey)
    requires Invariant(t) && Release(t, id).Ok? && key in Release(t, id).value.buckets
    ensures Accounted(Release(t, id).value, key)
  {
    assert Accounted(t, key);
    if id in t.counters && t.counters[id].state == Reserved {
      ReleaseGuardHolds(t, id);
      AccountedUpdate(t, Release(t, id).value, id, t.counters[id].(state := Released), key);
    }
  }

  lemma ReleaseKeepsInvariant(t: Tables, id: string)
    requires Invariant(t) && Release(t, id).Ok?
    ensures Invariant(Release(t, id).value)
  {
    var t' := Release(t, id).value;
    ReleaseKeepsPaired(t, id);
    forall key | key in t'.buckets ensures Accounted(t', key) {
      ReleaseKeepsAccounts(t, id, key);
    }
    assert OnePerStage(t');
  }

  lemma NextKeepsInvariant(t: Tables, step: Step)
    requires Invariant(t)
    ensures Invariant(Next(t, step))
  {
    if Next(t, step) != t {
      match step
      case DoReserve(context, request, freshId) => ReserveKeepsInvariant(t, context, request, freshId);
      case DoCommit(id, actual) => CommitKeepsInvariant(t, id, actual);
      case DoRelease(id) => ReleaseKeepsInvariant(t, id);
    }
  }

  /** Tables with some buckets opened but nothing reserved yet. */
  predicate Fresh(t: Tables) {
    && t.counters == map[] && t.reservations == map[]
    && forall key :: key in t.buckets ==>
         t.buckets[key].reserved == 0.0 && t.buckets[key].committed == 0.0 && t.buckets[key].cap >= 0.0
  }

  lemma {:induction false} RunKeepsInvariant(t: Tables, steps: seq<Step>)
    requires Invariant(t)
    ensures Invariant(Run(t, steps))
    decreases |steps|
  {
    if steps != [] {
      NextKeepsInvariant(t, steps[0]);
      RunKeepsInvariant(Next(t, steps[0]), steps[1..]);
    }
  }

  /** Every interleaving from fresh buckets keeps the ledger exact and solvent. */
  lemma LedgerIsExact(t: Tables, steps: seq<Step>)
    requires Fresh(t)
    ensures Invariant(Run(t, steps))
    ensures forall id :: id in Run(t, steps).counters && Run(t, steps).counters[id].state == Reserved ==>
              ReleaseGuard(Run(t, steps), Run(t, steps).counters[id])
  {
    RunKeepsInvariant(t, steps);
    var t' := Run(t, steps);
    forall id | id in t'.counters && t'.counters[id].state == Reserved ensures ReleaseGuard(t', t'.counters[id]) {
      ReleaseGuardHolds(t', id);
    }
  }

  // --- settlement and replay ------------------------------------------------------------------

  lemma NextKeepsSettled(t: Tables, step: Step, id: string)
    requires Invariant(t) && id in t.reservations
    ensures id in Next(t, step).reservations
    ensures t.reservations[id].state != Reserved ==> Next(t, step).reservations[id] == t.reservations[id]
    ensures (id in t.counters && t.counters[id].state != Reserved) ==>
              id in Next(t, step).counters && Next(t, step).counters[id] == t.counters[id]
  {
    if id in t.counters { assert Paired(t, id); }
  }

  /** A settled reservation, and the counter beside it, never change again in any interleaving. */
  lemma {:induction false} SettledForever(t: Tables, steps: seq<Step>, id: string)
    requires Invariant(t) && id in t.reservations && t.reservations[id].state != Reserved
    ensures id in Run(t, steps).reservations && Run(t, steps).reservations[id] == t.reservations[id]
    ensures id in t.counters ==> id in Run(t, steps).counters && Run(t, steps).counters[id] == t.counters[id]
    decreases |steps|
  {
    if steps != [] {
      if id in t.counters { assert Paired(t, id); }
      NextKeepsSettled(t, steps[0], id);
      NextKeepsInvariant(t, steps[0]);
      SettledForever(Next(t, steps[0]), steps[1..], id);
    }
  }

  /** Settling succeeds at most once: after one commit or release, both are refused. */
  lemma SettlesOnce(t: Tables, steps: seq<Step>, id: string, actual: real)
    requires Invariant(t) && id in t.reservations && t.reservations[id].state != Reserved
    ensures Commit(Run(t, steps), id, actual).Err?
    ensures Release(Run(t, steps), id) == Err(TransitionIllegal)
  {
    SettledForever(t, steps, id);
    RunKeepsInvariant(t, steps);
    var t' := Run(t, steps);
    if id in t'.counters { assert Paired(t', id); }
  }

  lemma NextKeepsRecord(t: Tables, step: Step, id: string)
    requires id in t.reservations
    ensures id in Next(t, step).reservations
    ensures Next(t, step).reservations[id].runId == t.reservations[id].runId
    ensures Next(t, step).reservations[id].stage == t.reservations[id].stage
  {
  }

  lemma {:induction false} RecordedForever(t: Tables, steps: seq<Step>, id: string)
    requires id in t.reservations
    ensures id in Run(t, steps).reservations
    ensures Run(t, steps).reservations[id].runId == t.reservations[id].runId
    ensures Run(t, steps).reservations[id].stage == t.reservations[id].stage
    decreases |steps|
  {
    if steps != [] {
      NextKeepsRecord(t, steps[0], id);
      RecordedForever(Next(t, steps[0]), steps[1..], id);
    }
  }

  /**
   After a reserve committed, the same run and stage can be reserved again at any later point,
   under any context and any request payload, without changing a single row.
   */
  lemma RepeatedReserveChangesNothing(t: Tables, context: Context, request: Request, id: string, steps: seq<Step>,
                                      context': Context, request': Request, id': string)
    requires Invariant(t) && !Recorded(t, request.runId, request.stage)
    requires ReserveNew(t, context, request, id).Ok?
    requires request'.runId == request.runId && request'.stage == request.stage
    ensures var later := Run(ReserveNew(t, context, request, id).value, steps);
            Next(later, DoReserve(context', request', id')) == later
  {
    var reserved := ReserveNew(t, context, request, id).value;
    ReserveKeepsInvariant(t, context, request, id);
    RecordedForever(reserved, steps, id);
    assert Holds(Run(reserved, steps), id, request'.runId, request'.stage);
  }

  // --- admission ------------------------------------------------------------------------------

  function UpperChar(c: char): char {
    if 'a' <= c <= 'z' then (c as int - 32) as char else c
  }

  function Upper(s: string): string {
    seq(|s|, i requires 0 <= i < |s| => UpperChar(s[i]))
  }

  predicate Includes(s: string, part: string) {
    exists i {:trigger s[i..]} :: 0 <= i <= |s| && part <= s[i..]
  }

  /** `routeProtectedReserve`. */
  function RouteProtectedReserve(workload: WorkloadClass, operation: string, eligible: bool): Option<ReserveId> {
    if !eligible || workload in {BackfillLow, EvaluationLow, ScheduledNormal} then None
    else if Includes(Upper(operation), "ALERT") then Some(AlertVerification)
    else if Includes(Upper(operation), "EMERGENCY") then Some(EmergencyBackfill)
    else if workload == RiskMonitorHigh then Some(RiskMonitoring)
    else Some(InteractiveMcp)
  }

  /** The row a balance query returns: the latest window that is open at `now`. */
  predicate IsOpen(t: Tables, key: BucketKey, now: int) {
    key in t.buckets && key.window <= now < t.buckets[key].resetAt
  }

  ghost predicate Selects(t: Tables, request: Request, reserve: Option<ReserveId>, now: int, window: int) {
    && IsOpen(t, BucketOf(request, reserve, window), now)
    && forall w :: IsOpen(t, BucketOf(request, reserve, w), now) ==> w <= window
  }

  /** The contexts a metered `admit` call may leave behind. */
  ghost predicate AdmitsWith(t: Tables, request: Request, eligible: bool, now: int, context: Context) {
    && context.window.Some?
    && Selects(t, request, context.reserve, now, context.window.value)
    && t.buckets[BucketOf(request, context.reserve, context.window.value)].Remaining() >= request.units
    && (context.reserve.Some? ==>
          && context.reserve == RouteProtectedReserve(request.workload, request.operation, eligible)
          && forall w :: Selects(t, request, None, now, w) ==> t.buckets[BucketOf(request, None, w)].Remaining() < request.units)
  }

  /** A new reservation holds quota exactly when the context it was given names a window. */
  lemma ReserveIsMeteredIff(t: Tables, context: Context, request: Request, id: string)
    requires Invariant(t) && ReserveNew(t, context, request, id).Ok?
    ensures id in ReserveNew(t, context, request, id).value.counters <==> context.window.Some?
    ensures context.window.None? ==> ReserveNew(t, context, request, id).value.buckets == t.buckets
  {
    assert forall i :: i in t.counters ==> Paired(t, i);
  }

  function KeyOf(provider: string, operation: string): string {
    provider + ['\0'] + operation
  }

  /** Routes of providers whose names hold no NUL are remembered apart. */
  lemma RoutesAreApart(p: string, o: string, q: string, r: string)
    requires '\0' !in p && '\0' !in q
    ensures KeyOf(p, o) == KeyOf(q, r) <==> p == q && o == r
  {
    assert KeyOf(p, o) == p + (['\0'] + o) && KeyOf(q, r) == q + (['\0'] + r);
    if KeyOf(p, o) == KeyOf(q, r) { Texts.UpTo(p, q, '\0', o, r); }
  }

  function AfterEstimate(contexts: map<string, Context>, provider: string, operation: string): map<string, Context> {
    contexts[KeyOf(provider, operation) := Context(None, None)]
  }

  /**
   Reserving straight after admission succeeds exactly when the routed reserve may serve the
   workload: routing by operation name and the table constraint do not agree.
   */
  lemma AdmittedReserveCommitsIff(t: Tables, request: Request, eligible: bool, now: int, context: Context, id: string)
    requires Invariant(t) && WellFormed(request) && id !in t.reservations
    requires AdmitsWith(t, request, eligible, now, context)
    ensures ReserveNew(t, context, request, id).Ok?
       <==> (context.reserve in {Some(AlertVerification), Some(EmergencyBackfill)} ==> request.workload == RiskMonitorHigh)
  {
    assert forall i :: i in t.counters ==> Paired(t, i);
  }

  /** An interactive operation named after alerts is routed to a reserve it can never draw from. */
  lemma InteractiveAlertIsNeverReserved(t: Tables, request: Request, window: int, id: string)
    requires request.workload == InteractiveHigh && request.operation == "alert-check"
    ensures RouteProtectedReserve(request.workload, request.operation, true) == Some(AlertVerification)
    ensures ReserveNew(t, Context(Some(AlertVerification), Some(window)), request, id).Err?
  {
    assert Upper("alert-check") == "ALERT-CHECK";
    assert "ALERT-CHECK"[0..] == "ALERT-CHECK" && "ALERT" <= "ALERT-CHECK"[0..];
  }

  // --- the adapter in place -------------------------------------------------------------------

  /** The shared database; several adapters may write to one. */
  class Database {
    var buckets: map<BucketKey, Bucket>
    var counters: map<string, Counter>
    var reservations: map<string, Reservation>

    function Snapshot(): Tables
      reads this
    {
      Tables(buckets, counters, reservations)
    }
  }

  class Adapter {
    const db: Database
    var contexts: map<string, Context>

    constructor (db: Database)
      ensures this.db == db && contexts == map[]
    {
      this.db := db;
      contexts := map[];
    }

    method Estimate(provider: string, operation: string)
      modifies this
      ensures contexts == AfterEstimate(old(contexts), provider, operation)
    {
      contexts := contexts[KeyOf(provider, operation) := Context(None, None)];
    }

    /** The unmetered path of `admit`; `blocked` is the verdict of the strict-free guard. */
    method AdmitFree(provider: string, operation: string, blocked: bool) returns (allowed: bool)
      modifies this
      ensures allowed == !blocked
      ensures contexts == if allowed then AfterEstimate(old(contexts), provider, operation) else old(contexts)
    {
      if blocked { return false; }
      contexts := contexts[KeyOf(provider, operation) := Context(None, None)];
      allowed := true;
    }

    /**
     The metered path of `admit`: general pool first, then the routed protected reserve. `blocked` is
     the verdict of the strict-free guard.
     */
    method Admit(request: Request, eligible: bool, now: int, blocked: bool) returns (allowed: bool)
      modifies this
      ensures allowed ==>
                exists context ::
                  && AdmitsWith(db.Snapshot(), request, eligible, now, context)
                  && contexts == old(contexts)[KeyOf(request.provider, request.operation) := context]
      ensures !allowed ==> contexts == old(contexts)
      ensures allowed <==> !blocked && exists context :: AdmitsWith(db.Snapshot(), request, eligible, now, context)
    {
      var reserve := None;
      var window := LatestOpen(request, reserve, now);
      if window.None? || db.buckets[BucketOf(request, reserve, window.value)].Remaining() < request.units {
        reserve := RouteProtectedReserve(request.workload, request.operation, eligible);
        if reserve.Some? {
          window := LatestOpen(request, reserve, now);
        }
      }
      if blocked || window.None? || db.buckets[BucketOf(request, reserve, window.value)].Remaining() < request.units {
        return false;
      }
      contexts := contexts[KeyOf(request.provider, request.operation) := Context(reserve, window)];
      assert AdmitsWith(db.Snapshot(), request, eligible, now, Context(reserve, window));
      allowed := true;
    }

    method LatestOpen(request: Request, reserve: Option<ReserveId>, now: int) returns (window: Option<int>)
      ensures window.None? ==> forall w :: !IsOpen(db.Snapshot(), BucketOf(request, reserve, w), now)
      ensures window.Some? ==> Selects(db.Snapshot(), request, reserve, now, window.value)
    {
      window := None;
      var pending := db.buckets.Keys;
      while pending != {}
        invariant pending <= db.buckets.Keys
        invariant forall w ::
                    (IsOpen(db.Snapshot(), BucketOf(request, reserve, w), now) && BucketOf(request, reserve, w) !in pending)
                    ==> window.Some? && w <= window.value
        invariant window.Some? ==> IsOpen(db.Snapshot(), BucketOf(request, reserve, window.value), now)
        decreases |pending|
      {
        var key :| key in pending;
        if key == BucketOf(request, reserve, key.window) && key.window <= now < db.buckets[key].resetAt {
          if window.None? || window.value < key.window {
            window := Some(key.window);
          }
        }
        pending := pending - {key};
      }
    }

    method Reserve(request: Request, freshId: string) returns (outcome: Result<string, Refusal>)
      modifies db
      ensures KeyOf(request.provider, request.operation) !in contexts ==> outcome == Err(UnknownCost)
      ensures KeyOf(request.provider, request.operation) in contexts ==>
                db.Snapshot() == Next(old(db.Snapshot()),
                                      DoReserve(contexts[KeyOf(request.provider, request.operation)], request, freshId))
      ensures outcome.Ok? ==> Holds(db.Snapshot(), outcome.value, request.runId, request.stage)
      ensures KeyOf(request.provider, request.operation) in contexts && Recorded(old(db.Snapshot()), request.runId, request.stage) ==> outcome.Ok?
      ensures KeyOf(request.provider, request.operation) in contexts && !Recorded(old(db.Snapshot()), request.runId, request.stage) ==>
                match ReserveNew(old(db.Snapshot()), contexts[KeyOf(request.provider, request.operation)], request, freshId)
                case Ok(_) => outcome == Ok(freshId)
                case Err(refusal) => outcome == Err(refusal)
      ensures outcome.Err? ==> db.Snapshot() == old(db.Snapshot())
    {
      if KeyOf(request.provider, request.operation) !in contexts { return Err(UnknownCost); }
      var context := contexts[KeyOf(request.provider, request.operation)];
      if id :| id in db.reservations && Holds(db.Snapshot(), id, request.runId, request.stage) {
        return Ok(id);
      }
      var buckets, counters := db.buckets, db.counters;
      if context.window.Some? {
        var key := BucketOf(request, context.reserve, context.window.value);
        if key !in buckets || buckets[key].Remaining() < request.units { return Err(QuotaExhausted); }
        if freshId in counters || !NoInvasion(key, request.workload) { return Err(ConstraintViolated); }
        buckets := buckets[key := buckets[key].(reserved := buckets[key].reserved + request.units)];
        counters := counters[freshId := Counter(key, request.workload, request.units, None, Reserved)];
      }
      if freshId in db.reservations || !WellFormed(request) { return Err(ConstraintViolated); }
      db.buckets, db.counters := buckets, counters;
      db.reservations := db.reservations[freshId := NewReservation(request)];
      outcome := Ok(freshId);
    }

    method CommitUnits(id: string, actual: real) returns (outcome: Result<(), Refusal>)
      modifies db
      ensures db.Snapshot() == Next(old(db.Snapshot()), DoCommit(id, actual))
      ensures outcome.Ok? <==> Commit(old(db.Snapshot()), id, actual).Ok?
      ensures outcome.Err? ==> Commit(old(db.Snapshot()), id, actual) == Err(outcome.error)
    {
      if actual < 0.0 { return Err(InvalidActualUnits); }
      var buckets, counters := db.buckets, db.counters;
      if id in counters && counters[id].state == Reserved {
        var row := counters[id];
        if row.bucket !in buckets { return Err(QuotaExhausted); }
        var bucket := buckets[row.bucket];
        if bucket.reserved < row.reservedUnits || bucket.Remaining() + row.reservedUnits < actual {
          return Err(QuotaExhausted);
        }
        buckets := buckets[row.bucket :=
          bucket.(reserved := bucket.reserved - row.reservedUnits, committed := bucket.committed + actual)];
        counters := counters[id := row.(state := Committed, committedUnits := Some(actual))];
      }
      if id !in db.reservations || db.reservations[id].state != Reserved { return Err(TransitionIllegal); }
      db.buckets, db.counters := buckets, counters;
      db.reservations := db.reservations[id := db.reservations[id].(state := Committed, actual := Some(actual))];
      outcome := Ok(());
    }

    method ReleaseUnits(id: string) returns (outcome: Result<(), Refusal>)
      modifies db
      ensures db.Snapshot() == Next(old(db.Snapshot()), DoRelease(id))
      ensures outcome.Ok? <==> Release(old(db.Snapshot()), id).Ok?
      ensures outcome.Err? ==> Release(old(db.Snapshot()), id) == Err(outcome.error)
    {
      var buckets, counters := db.buckets, db.counters;
      if id in counters && counters[id].state == Reserved {
        var row := counters[id];
        if row.bucket in buckets && buckets[row.bucket].reserved >= row.reservedUnits {
          var bucket := buckets[row.bucket];
          buckets := buckets[row.bucket := bucket.(reserved := bucket.reserved - row.reservedUnits)];
        }
        counters := counters[id := row.(state := Released)];
      }
      if id !in db.reservations || db.reservations[id].state != Reserved { return Err(TransitionIllegal); }
      db.buckets, db.counters := buckets, counters;
      db.reservations := db.reservations[id := db.reservations[id].(state := Released)];
      outcome := Ok(());
    }
  }
}
