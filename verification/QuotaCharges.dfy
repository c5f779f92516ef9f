/**
 What each ledger transaction moves and when it goes through, told on rows and arguments: units
 held by a reserve, units charged by a commit, units returned by a release.
 */
module QuotaCharges {
  import opened Prelude
  import opened Quota

  /** Units of a bucket that are neither held nor spent. */
  function Free(b: Bucket): real { b.cap - b.reserved - b.committed }

  predicate IsReserved(t: Tables, id: string) {
    id in t.reservations && t.reservations[id].state == Reserved
  }

  /** A reservation that still holds units of a bucket. */
  predicate HoldsUnits(t: Tables, id: string, key: BucketKey) {
    id in t.counters && t.counters[id].bucket == key && t.counters[id].state == Reserved
  }

  // --- reserve ----------------------------------------------------------------------------------

  /** Protected reserves serve one class of work each; the general pool serves all. */
  predicate MayDrawFrom(reserve: Option<ReserveId>, workload: WorkloadClass) {
    match reserve
    case None => true
    case Some(InteractiveMcp) => workload == InteractiveHigh
    case Some(RiskMonitoring) => workload == RiskMonitorHigh
    case Some(AlertVerification) => workload == RiskMonitorHigh
    case Some(EmergencyBackfill) => workload == RiskMonitorHigh
  }

  /** The row of the window that the context names. */
  predicate Names(key: BucketKey, context: Context, request: Request) {
    match key
    case General(provider, model, window) =>
      context.reserve.None? && provider == request.provider && model == request.model && context.window == Some(window)
    case Protected(reserve, provider, model, window) =>
      context.reserve == Some(reserve) && provider == request.provider && model == request.model && context.window == Some(window)
  }

  /** A request the columns accept, under an id that is new. */
  predicate Insertable(t: Tables, request: Request, id: string) {
    && id !in t.reservations && request.units >= 0.0
    && "" !in {request.runId, request.stage, request.actor, request.provider, request.operation}
  }

  lemma CountersAreReservations(t: Tables)
    requires Invariant(t)
    ensures forall i :: i in t.counters ==> i in t.reservations
  {
    assert forall i :: i in t.counters ==> Paired(t, i);
  }

  /** A first reserve goes through exactly when its row is insertable and, if metered, the named window has room and may serve it. */
  lemma ReserveCommitsIff(t: Tables, context: Context, request: Request, id: string)
    requires Invariant(t)
    ensures ReserveNew(t, context, request, id).Ok? <==>
            && Insertable(t, request, id)
            && (context.window.Some? ==>
                  && MayDrawFrom(context.reserve, request.workload)
                  && exists key :: key in t.buckets && Names(key, context, request) && request.units <= Free(t.buckets[key]))
    ensures ReserveNew(t, context, request, id) == Err(QuotaExhausted) <==>
            && context.window.Some?
            && forall key :: key in t.buckets && Names(key, context, request) ==> Free(t.buckets[key]) < request.units
  {
    CountersAreReservations(t);
    if context.window.Some? {
      var named := BucketOf(request, context.reserve, context.window.value);
      assert Names(named, context, request);
      assert forall key :: Names(key, context, request) ==> key == named;
    }
  }

  /** It records the request as it was made; without a window it touches no quota row. */
  lemma ReserveRecords(t: Tables, context: Context, request: Request, id: string)
    requires ReserveNew(t, context, request, id).Ok?
    ensures var t' := ReserveNew(t, context, request, id).value;
            && t'.reservations == t.reservations[id := Reservation(
                 request.runId, request.stage, request.actor, request.provider, request.operation, request.workload,
                 request.units, None, Reserved)]
            && (context.window.None? ==> t'.buckets == t.buckets && t'.counters == t.counters)
  {
  }

  /** With one, it moves exactly the requested units of the named row from free to held. */
  lemma ReserveHolds(t: Tables, context: Context, request: Request, id: string, key: BucketKey)
    requires ReserveNew(t, context, request, id).Ok? && Names(key, context, request)
    ensures var t' := ReserveNew(t, context, request, id).value;
            && key in t.buckets && id !in t.counters
            && t'.buckets == t.buckets[key := t.buckets[key].(reserved := t.buckets[key].reserved + request.units)]
            && t'.counters == t.counters[id := Counter(key, request.workload, request.units, None, Reserved)]
            && Free(t'.buckets[key]) == Free(t.buckets[key]) - request.units
  {
    assert key == BucketOf(request, context.reserve, context.window.value);
  }

  // --- commit -----------------------------------------------------------------------------------

  /** A commit goes through exactly when the reservation is open and its own units plus the free ones cover the actual use. */
  lemma CommitSucceedsIff(t: Tables, id: string, actual: real)
    requires Invariant(t)
    ensures Commit(t, id, actual).Ok? <==>
            && actual >= 0.0 && IsReserved(t, id)
            && forall key :: HoldsUnits(t, id, key) ==>
                 key in t.buckets && actual <= Free(t.buckets[key]) + t.counters[id].reservedUnits
    ensures Commit(t, id, actual) == Err(InvalidActualUnits) <==> actual < 0.0
    ensures Commit(t, id, actual) == Err(TransitionIllegal) <==> actual >= 0.0 && !IsReserved(t, id)
  {
    if id in t.counters {
      assert Paired(t, id);
      if t.counters[id].state == Reserved {
        assert HoldsUnits(t, id, t.counters[id].bucket);
        ReleaseGuardHolds(t, id);
      }
    }
  }

  /** It charges the actual units, returns the reserved ones, and records the actual units on both rows. */
  lemma CommitCharges(t: Tables, id: string, actual: real)
    requires Invariant(t) && Commit(t, id, actual).Ok?
    ensures var t' := Commit(t, id, actual).value;
            && id in t.reservations
            && t'.reservations == t.reservations[id := t.reservations[id].(state := Committed, actual := Some(actual))]
            && (id !in t.counters ==> t'.buckets == t.buckets && t'.counters == t.counters)
            && (id in t.counters ==>
                  var key, units := t.counters[id].bucket, t.counters[id].reservedUnits;
                  && key in t.buckets && key in t'.buckets && HoldsUnits(t, id, key)
                  && t'.buckets[key].committed == t.buckets[key].committed + actual
                  && t'.buckets[key].reserved == t.buckets[key].reserved - units
                  && Free(t'.buckets[key]) == Free(t.buckets[key]) + units - actual
                  && t'.counters == t.counters[id := Counter(key, t.counters[id].workload, units, Some(actual), Committed)])
    ensures KeepsOthers(t, Commit(t, id, actual).value, id)
  {
    if id in t.counters { assert Paired(t, id); }
  }

  /** Buckets other than the one `id` draws from are untouched; none appears, goes, or changes its cap or its reset. */
  predicate KeepsOthers(t: Tables, t': Tables, id: string) {
    && t'.buckets.Keys == t.buckets.Keys
    && forall key :: key in t.buckets ==>
         && t'.buckets[key].cap == t.buckets[key].cap && t'.buckets[key].resetAt == t.buckets[key].resetAt
         && (!(id in t.counters && t.counters[id].bucket == key) ==> t'.buckets[key] == t.buckets[key])
  }

  // --- release ----------------------------------------------------------------------------------

  lemma ReleaseSucceedsIff(t: Tables, id: string)
    ensures Release(t, id).Ok? <==> IsReserved(t, id)
  {
  }

  /** It returns all held units and charges nothing. */
  lemma ReleaseReturns(t: Tables, id: string)
    requires Invariant(t) && Release(t, id).Ok?
    ensures var t' := Release(t, id).value;
            && id in t.reservations
            && t'.reservations == t.reservations[id := t.reservations[id].(state := Released)]
            && (id !in t.counters ==> t'.buckets == t.buckets && t'.counters == t.counters)
            && (id in t.counters ==>
                  var key, units := t.counters[id].bucket, t.counters[id].reservedUnits;
                  && key in t.buckets && key in t'.buckets && HoldsUnits(t, id, key)
                  && t'.buckets[key].committed == t.buckets[key].committed
                  && t'.buckets[key].reserved == t.buckets[key].reserved - units
                  && Free(t'.buckets[key]) == Free(t.buckets[key]) + units
                  && t'.counters == t.counters[id := t.counters[id].(state := Released)])
    ensures KeepsOthers(t, Release(t, id).value, id)
  {
    if id in t.counters {
      assert Paired(t, id);
      ReleaseGuardHolds(t, id);
    }
  }

  // --- runs -------------------------------------------------------------------------------------

  /** This step settles, as committed, a reservation that held units of the bucket. */
  predicate SettlesOn(t: Tables, step: Step, key: BucketKey) {
    && step.DoCommit? && HoldsUnits(t, step.id, key)
    && step.id in Next(t, step).reservations && Next(t, step).reservations[step.id].state == Committed
  }

  /** The actual units of all commit calls of a run that settled on a bucket. */
  function Charged(t: Tables, steps: seq<Step>, key: BucketKey): real
    decreases |steps|
  {
    if steps == [] then 0.0
    else (if SettlesOn(t, steps[0], key) then steps[0].actual else 0.0) + Charged(Next(t, steps[0]), steps[1..], key)
  }

  lemma StepCharges(t: Tables, step: Step, key: BucketKey)
    requires Invariant(t) && key in t.buckets
    ensures key in Next(t, step).buckets
    ensures Next(t, step).buckets[key].cap == t.buckets[key].cap
    ensures Next(t, step).buckets[key].committed
         == t.buckets[key].committed + if SettlesOn(t, step, key) then step.actual else 0.0
  {
    if step.DoCommit? {
      if Commit(t, step.id, step.actual).Ok? {
        CommitCharges(t, step.id, step.actual);
      } else if HoldsUnits(t, step.id, key) {
        assert Paired(t, step.id);
      }
    }
  }

  /** What a bucket has spent is the sum of the actual units its commits were called with. */
  lemma {:induction false} SpentIsCharged(t: Tables, steps: seq<Step>, key: BucketKey)
    requires Invariant(t) && key in t.buckets
    ensures key in Run(t, steps).buckets
    ensures Run(t, steps).buckets[key].cap == t.buckets[key].cap
    ensures Run(t, steps).buckets[key].committed == t.buckets[key].committed + Charged(t, steps, key)
    decreases |steps|
  {
    if steps != [] {
      StepCharges(t, steps[0], key);
      NextKeepsInvariant(t, steps[0]);
      SpentIsCharged(Next(t, steps[0]), steps[1..], key);
    }
  }

  /** From fresh buckets, every run leaves cap minus the charged units minus what open reservations hold. */
  lemma FreeAfterRun(t: Tables, steps: seq<Step>, key: BucketKey)
    requires Fresh(t) && key in t.buckets
    ensures key in Run(t, steps).buckets
    ensures Free(Run(t, steps).buckets[key])
         == t.buckets[key].cap - Charged(t, steps, key) - Total(HeldIn(key), Run(t, steps).counters)
    ensures 0.0 <= Free(Run(t, steps).buckets[key])
  {
    SpentIsCharged(t, steps, key);
    LedgerIsExact(t, steps);
    assert Accounted(Run(t, steps), key);
  }

  // --- routing and admission --------------------------------------------------------------------

  /** The word, given in capitals, stands in the text in any mixture of cases. */
  predicate SpelledAt(text: string, word: string, i: int)
    requires 0 <= i <= |text| - |word|
  {
    forall j :: 0 <= j < |word| ==> text[i + j] == word[j] || text[i + j] as int == word[j] as int + 32
  }

  predicate Spells(text: string, word: string) {
    exists i :: 0 <= i <= |text| - |word| && SpelledAt(text, word, i)
  }

  predicate Capitals(word: string) { forall j :: 0 <= j < |word| ==> 'A' <= word[j] <= 'Z' }

  lemma UpperAt(text: string, word: string, i: int)
    requires Capitals(word) && 0 <= i <= |text| - |word|
    ensures word <= Upper(text)[i..] <==> SpelledAt(text, word, i)
  {
    var raised := Upper(text);
    if word <= raised[i..] {
      forall j | 0 <= j < |word| ensures text[i + j] == word[j] || text[i + j] as int == word[j] as int + 32 {
        assert word[j] == raised[i..][j] == raised[i + j] == UpperChar(text[i + j]);
      }
    }
    if SpelledAt(text, word, i) {
      forall j | 0 <= j < |word| ensures raised[i..][j] == word[j] {
        assert raised[i..][j] == raised[i + j] == UpperChar(text[i + j]);
      }
    }
  }

  lemma IncludesIff(text: string, word: string)
    requires Capitals(word)
    ensures Includes(Upper(text), word) <==> Spells(text, word)
  {
    var raised := Upper(text);
    if Includes(raised, word) {
      var i :| 0 <= i <= |raised| && word <= raised[i..];
      UpperAt(text, word, i);
    }
    if Spells(text, word) {
      var i :| 0 <= i <= |text| - |word| && SpelledAt(text, word, i);
      UpperAt(text, word, i);
    }
  }

  /** Which reserve a request may fall back on, one class and one operation name at a time. */
  lemma RouteIff(workload: WorkloadClass, operation: string, eligible: bool)
    ensures var route := RouteProtectedReserve(workload, operation, eligible);
            var served := eligible && (workload == InteractiveHigh || workload == RiskMonitorHigh);
            var alert, emergency := Spells(operation, "ALERT"), Spells(operation, "EMERGENCY");
            && (route == None <==> !served)
            && (route == Some(AlertVerification) <==> served && alert)
            && (route == Some(EmergencyBackfill) <==> served && !alert && emergency)
            && (route == Some(RiskMonitoring) <==> served && !alert && !emergency && workload == RiskMonitorHigh)
            && (route == Some(InteractiveMcp) <==> served && !alert && !emergency && workload == InteractiveHigh)
  {
    IncludesIff(operation, "ALERT");
    IncludesIff(operation, "EMERGENCY");
  }

  /** The latest window of a pool that is open at `now`, and its row. */
  ghost predicate Current(t: Tables, request: Request, reserve: Option<ReserveId>, now: int, key: BucketKey) {
    && Names(key, Context(reserve, Some(key.window)), request)
    && key in t.buckets && key.window <= now < t.buckets[key].resetAt
    && forall other ::
         (other in t.buckets && Names(other, Context(reserve, Some(other.window)), request) && other.window <= now < t.buckets[other].resetAt)
         ==> other.window <= key.window
  }

  ghost predicate HasRoom(t: Tables, request: Request, reserve: Option<ReserveId>, now: int) {
    exists key :: key in t.buckets && Current(t, request, reserve, now, key) && request.units <= Free(t.buckets[key])
  }

  lemma SelectsIff(t: Tables, request: Request, reserve: Option<ReserveId>, now: int, window: int)
    ensures Selects(t, request, reserve, now, window)
       <==> Current(t, request, reserve, now, BucketOf(request, reserve, window))
  {
    var named := BucketOf(request, reserve, window);
    assert forall key: BucketKey :: Names(key, Context(reserve, Some(key.window)), request) <==> key == BucketOf(request, reserve, key.window);
  }

  /** Admission is by the general pool when it has room, else by the routed reserve when that has room, else by nothing. */
  lemma AdmitsIff(t: Tables, request: Request, eligible: bool, now: int, reserve: Option<ReserveId>)
    ensures (exists window :: AdmitsWith(t, request, eligible, now, Context(reserve, Some(window)))) <==>
            && HasRoom(t, request, reserve, now)
            && (reserve.Some? ==>
                  && !HasRoom(t, request, None, now)
                  && reserve == RouteProtectedReserve(request.workload, request.operation, eligible))
  {
    RoomIff(t, request, reserve, now);
    RoomIff(t, request, None, now);
    if window :| AdmitsWith(t, request, eligible, now, Context(reserve, Some(window))) {
      assert RoomAt(t, request, reserve, now, window);
    }
    if HasRoom(t, request, reserve, now)
      && (reserve.Some? ==> !HasRoom(t, request, None, now) && reserve == RouteProtectedReserve(request.workload, request.operation, eligible)) {
      var window :| RoomAt(t, request, reserve, now, window);
      forall w | reserve.Some? && Selects(t, request, None, now, w)
        ensures t.buckets[BucketOf(request, None, w)].Remaining() < request.units {
        assert !RoomAt(t, request, None, now, w);
      }
      assert AdmitsWith(t, request, eligible, now, Context(reserve, Some(window)));
    }
  }

  ghost predicate RoomAt(t: Tables, request: Request, reserve: Option<ReserveId>, now: int, window: int) {
    Selects(t, request, reserve, now, window) && t.buckets[BucketOf(request, reserve, window)].Remaining() >= request.units
  }

  lemma RoomIff(t: Tables, request: Request, reserve: Option<ReserveId>, now: int)
    ensures HasRoom(t, request, reserve, now) <==> exists window :: RoomAt(t, request, reserve, now, window)
  {
    if window :| RoomAt(t, request, reserve, now, window) {
      SelectsIff(t, request, reserve, now, window);
    }
    if key :| key in t.buckets && Current(t, request, reserve, now, key) && request.units <= Free(t.buckets[key]) {
      assert key == BucketOf(request, reserve, key.window);
      SelectsIff(t, request, reserve, now, key.window);
      assert RoomAt(t, request, reserve, now, key.window);
    }
  }

  /** At most one context can come out of an admission. */
  lemma AdmissionIsUnique(t: Tables, request: Request, eligible: bool, now: int, a: Context, b: Context)
    requires AdmitsWith(t, request, eligible, now, a) && AdmitsWith(t, request, eligible, now, b)
    ensures a == b
  {
  }
}
