/**
 One quota adapter's calls against a ledger that everybody writes to: whether a reservation holds
 quota, told from the calls alone.
 */
module QuotaSessions {
  import opened Prelude
  import opened Quota

  /** What the adapter was asked, with the answers that matter, and what others did in between. */
  datatype Call =
    | Estimated(provider: string, operation: string)
    | AdmittedMetered(request: Request, eligible: bool, now: int, context: Context)
    | AdmittedFree(provider: string, operation: string)
    | Declined
    | Reserve(request: Request, id: string)
    | Elsewhere(step: Step)

  datatype World = World(tables: Tables, contexts: map<string, Context>)

  function RouteKey(request: Request): string { KeyOf(request.provider, request.operation) }

  ghost predicate Follows(w: World, call: Call, w': World) {
    match call
    case Estimated(provider, operation) => w' == w.(contexts := AfterEstimate(w.contexts, provider, operation))
    case AdmittedMetered(request, eligible, now, context) =>
      && AdmitsWith(w.tables, request, eligible, now, context)
      && w' == w.(contexts := w.contexts[RouteKey(request) := context])
    case AdmittedFree(provider, operation) => w' == w.(contexts := AfterEstimate(w.contexts, provider, operation))
    case Declined => w' == w
    case Reserve(request, id) =>
      if RouteKey(request) !in w.contexts then w' == w
      else w' == w.(tables := Next(w.tables, DoReserve(w.contexts[RouteKey(request)], request, id)))
    case Elsewhere(step) => w' == w.(tables := Next(w.tables, step))
  }

  /** A session of a new adapter on a ledger whose accounts are in order. */
  ghost predicate IsSession(worlds: seq<World>, calls: seq<Call>) {
    && |worlds| == |calls| + 1
    && Invariant(worlds[0].tables) && worlds[0].contexts == map[]
    && forall k :: 0 <= k < |calls| ==> Follows(worlds[k], calls[k], worlds[k + 1])
  }

  /** The context key a call writes, and whether it is a metered admission that was allowed. */
  function Writes(call: Call): Option<(string, bool)> {
    match call
    case Estimated(provider, operation) => Some((KeyOf(provider, operation), false))
    case AdmittedMetered(request, _, _, _) => Some((RouteKey(request), true))
    case AdmittedFree(provider, operation) => Some((KeyOf(provider, operation), false))
    case _ => None
  }

  /** The last of the calls that concern a provider and operation: was it an allowed metered admission? */
  function LastMetered(calls: seq<Call>, key: string): Option<bool> {
    if calls == [] then None
    else
      var written := Writes(calls[|calls| - 1]);
      if written.Some? && written.value.0 == key then Some(written.value.1) else LastMetered(calls[..|calls| - 1], key)
  }

  lemma {:induction false} SessionKeepsInvariant(worlds: seq<World>, calls: seq<Call>, k: nat)
    requires IsSession(worlds, calls) && k < |worlds|
    ensures Invariant(worlds[k].tables)
  {
    if k > 0 {
      SessionKeepsInvariant(worlds, calls, k - 1);
      var w, call := worlds[k - 1], calls[k - 1];
      assert Follows(w, call, worlds[k]);
      match call
      case Reserve(request, id) =>
        if RouteKey(request) in w.contexts {
          NextKeepsInvariant(w.tables, DoReserve(w.contexts[RouteKey(request)], request, id));
        }
      case Elsewhere(step) => NextKeepsInvariant(w.tables, step);
      case _ =>
    }
  }

  /** The adapter's memory is what the last call about a key left: a window exactly after an allowed metered admission. */
  lemma {:induction false} MemoryFollowsCalls(worlds: seq<World>, calls: seq<Call>, k: nat, key: string)
    requires IsSession(worlds, calls) && k < |worlds|
    ensures key in worlds[k].contexts <==> LastMetered(calls[..k], key).Some?
    ensures key in worlds[k].contexts ==> (worlds[k].contexts[key].window.Some? <==> LastMetered(calls[..k], key).value)
  {
    if k > 0 {
      MemoryFollowsCalls(worlds, calls, k - 1, key);
      assert calls[..k][..k - 1] == calls[..k - 1] && calls[..k][k - 1] == calls[k - 1];
      assert Follows(worlds[k - 1], calls[k - 1], worlds[k]);
    } else {
      assert calls[..0] == [];
    }
  }

  /** Call `k` records a reservation that was not there before. */
  ghost predicate ReservesNew(worlds: seq<World>, calls: seq<Call>, k: nat)
    requires |worlds| == |calls| + 1 && k < |calls|
  {
    && calls[k].Reserve?
    && calls[k].id !in worlds[k].tables.reservations && calls[k].id in worlds[k + 1].tables.reservations
  }

  /**
   A new reservation holds quota if and only if the last call about its provider and operation was a
   metered admission that was allowed. Otherwise every bucket and counter stays as it was.
   */
  lemma MeteredIffLastAdmitted(worlds: seq<World>, calls: seq<Call>, k: nat)
    requires IsSession(worlds, calls) && k < |calls| && ReservesNew(worlds, calls, k)
    ensures calls[k].id in worlds[k + 1].tables.counters <==> LastMetered(calls[..k], RouteKey(calls[k].request)) == Some(true)
    ensures LastMetered(calls[..k], RouteKey(calls[k].request)) != Some(true) ==>
              worlds[k + 1].tables.buckets == worlds[k].tables.buckets && worlds[k + 1].tables.counters == worlds[k].tables.counters
  {
    var t, key := worlds[k].tables, RouteKey(calls[k].request);
    assert Follows(worlds[k], calls[k], worlds[k + 1]);
    MemoryFollowsCalls(worlds, calls, k, key);
    SessionKeepsInvariant(worlds, calls, k);
    assert key in worlds[k].contexts;
    NewReserveIsReserveNew(t, worlds[k].contexts[key], calls[k].request, calls[k].id);
    ReserveIsMeteredIff(t, worlds[k].contexts[key], calls[k].request, calls[k].id);
  }

  lemma NewReserveIsReserveNew(t: Tables, context: Context, request: Request, id: string)
    requires id !in t.reservations && id in Next(t, DoReserve(context, request, id)).reservations
    ensures ReserveNew(t, context, request, id).Ok?
    ensures Next(t, DoReserve(context, request, id)) == ReserveNew(t, context, request, id).value
  {
  }

  // --- the admission that is forgotten ----------------------------------------------------------

  function AdmitEstimateReserve(request: Request, eligible: bool, now: int, context: Context, id: string): seq<Call> {
    [AdmittedMetered(request, eligible, now, context), Estimated(request.provider, request.operation), Reserve(request, id)]
  }

  /**
   Admitted against a window, estimated once more, reserved: the reservation commits and holds
   nothing, for every ledger, every admission and any amount of units.
   */
  lemma EstimateForgetsTheWindow(t: Tables, request: Request, eligible: bool, now: int, context: Context, id: string) returns (worlds: seq<World>)
    requires Invariant(t) && AdmitsWith(t, request, eligible, now, context)
    requires WellFormed(request) && id !in t.reservations && !Recorded(t, request.runId, request.stage)
    ensures IsSession(worlds, AdmitEstimateReserve(request, eligible, now, context, id)) && worlds[0].tables == t
    ensures ReservesNew(worlds, AdmitEstimateReserve(request, eligible, now, context, id), 2)
    ensures id !in worlds[3].tables.counters && worlds[3].tables.buckets == t.buckets
  {
    var calls := AdmitEstimateReserve(request, eligible, now, context, id);
    var key := RouteKey(request);
    var w0 := World(t, map[]);
    var w1 := w0.(contexts := w0.contexts[key := context]);
    var w2 := w1.(contexts := AfterEstimate(w1.contexts, request.provider, request.operation));
    var w3 := w2.(tables := Next(t, DoReserve(w2.contexts[key], request, id)));
    worlds := [w0, w1, w2, w3];
    assert forall k :: 0 <= k < |calls| ==> Follows(worlds[k], calls[k], worlds[k + 1]);
    assert calls[..2] == [calls[0], calls[1]] && calls[..2][1] == calls[1];
    MeteredIffLastAdmitted(worlds, calls, 2);
  }
}
