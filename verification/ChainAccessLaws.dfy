/**
 What the chain-access gate answers, told on rows and arguments: which bounds are in force, when a
 record is taken, when it is a breach, and what bounds a breach leaves.
 */
module ChainAccessLaws {
  import opened Prelude
  import opened TextOrder
  import opened ChainAccess

  // --- the bounds in force ----------------------------------------------------------------------

  /** `x` was recorded later than `y`, or at the same time under an id that is not smaller. */
  predicate NotOlder(x: Incident, y: Incident) {
    y.recordedAt < x.recordedAt || (y.recordedAt == x.recordedAt && !Less(x.id, y.id))
  }

  predicate IsNewest(incidents: seq<Incident>, key: Key, x: Incident) {
    && x in incidents && x.key == key
    && forall y :: y in incidents && y.key == key ==> NotOlder(x, y)
  }

  lemma NotOlderOrder(x: Incident, y: Incident, z: Incident)
    ensures NotOlder(x, x) && NotOlder(x, y) == !Newer(y, x)
    ensures Newer(x, y) && NotOlder(y, z) ==> NotOlder(x, z)
  {
    LessTrichotomy(x.id, x.id);
    if Newer(x, y) && NotOlder(y, z) && !NotOlder(x, z) {
      LessTransitive(y.id, x.id, z.id);
    }
  }

  lemma NewestOfLonger(incidents: seq<Incident>, key: Key, x: Incident, last: Incident)
    requires IsNewest(incidents, key, x)
    ensures IsNewest(incidents + [last], key, if last.key == key && Newer(last, x) then last else x)
  {
    NotOlderOrder(last, x, x);
    NotOlderOrder(x, last, x);
    forall y | y in incidents && y.key == key ensures Newer(last, x) ==> NotOlder(last, y) {
      NotOlderOrder(last, x, y);
    }
  }

  /** The incident query finds a newest incident whenever the declaration has one. */
  lemma {:induction false} TopIsNewest(incidents: seq<Incident>, key: Key)
    ensures Top(incidents, key).None? <==> forall x :: x in incidents ==> x.key != key
    ensures Top(incidents, key).Some? ==> IsNewest(incidents, key, Top(incidents, key).value)
    decreases |incidents|
  {
    if incidents != [] {
      var init, last := incidents[..|incidents| - 1], incidents[|incidents| - 1];
      assert incidents == init + [last];
      TopIsNewest(init, key);
      if Top(init, key).Some? {
        NewestOfLonger(init, key, Top(init, key).value, last);
      } else {
        NotOlderOrder(last, last, last);
      }
    }
  }

  /** The smaller of the two, dimension by dimension. */
  predicate IsCapped(b: Bounds, declared: Bounds, cap: Bounds) {
    && Below(b, declared) && Below(b, cap)
    && b.slots in {declared.slots, cap.slots} && b.calls in {declared.calls, cap.calls}
    && b.candidates in {declared.candidates, cap.candidates}
  }

  /** In force is what was declared, capped by a newest incident of the declaration if there is any. */
  lemma EffectiveIsCapped(s: Store, key: Key)
    requires key in s.declarations
    ensures (forall x :: x in s.incidents ==> x.key != key) ==> Effective(s, key) == s.declarations[key].bounds
    ensures (exists x :: x in s.incidents && x.key == key) ==>
              exists x :: IsNewest(s.incidents, key, x) && IsCapped(Effective(s, key), s.declarations[key].bounds, x.bounds)
  {
    TopIsNewest(s.incidents, key);
  }

  // --- when a record is taken -------------------------------------------------------------------

  /** The operation is one the declaration covers. */
  predicate Covers(d: Declaration, bounds: Bounds, op: Operation) {
    && op.purpose == d.purpose && op.chain == d.chain
    && |op.programs| > 0 && (forall p :: p in op.programs ==> p in d.programs)
    && 0 <= op.startSlot <= op.endSlot < op.startSlot + bounds.slots
    && 0 <= op.calls <= bounds.calls && 0 <= op.candidates <= bounds.candidates
    && 0 <= op.windowSeconds <= d.windowSeconds
  }

  lemma OperationIff(d: Declaration, bounds: Bounds, op: Operation)
    ensures OperationRefusal(d, bounds, op).None? <==> Covers(d, bounds, op)
  {
    if p :| p in op.programs && p !in d.programs {
      var i :| 0 <= i < |op.programs| && op.programs[i] == p;
    }
  }

  /** The run's use so far and the new use fit together. */
  predicate Fits(spent: Bounds, used: Bounds, bounds: Bounds) {
    && used.slots >= 0 && used.calls >= 0 && used.candidates >= 0
    && spent.slots + used.slots <= bounds.slots && spent.calls + used.calls <= bounds.calls
    && spent.candidates + used.candidates <= bounds.candidates
  }

  /** What `record` demands, given the declaration, the bounds and the total it read. */
  predicate Taken(d: Declaration, bounds: Bounds, spent: Bounds, c: Consumption) {
    && Covers(d, bounds, c.operation) && Fits(spent, c.used, bounds)
    && (c.used.slots > 0 || c.used.calls > 0 || c.used.candidates > 0) && c.operation.run != ""
  }

  /** A record is taken exactly when its declaration, as read, covers it, its run's total still fits, and it used something. */
  lemma RecordCommitsIff(read: Store, s: Store, c: Consumption, at: int)
    ensures Record(read, s, c, at).Ok? <==>
            && c.operation.key in read.declarations
            && var key := c.operation.key;
               Taken(read.declarations[key], Effective(read, key), Total(read.usages, c.operation.run, key), c)
  {
    if c.operation.key in read.declarations {
      var key := c.operation.key;
      var d, bounds, spent := read.declarations[key], Effective(read, key), Total(read.usages, c.operation.run, key);
      OperationIff(d, bounds, c.operation);
      FitsIff(spent, c.used, bounds);
    }
  }

  lemma FitsIff(spent: Bounds, used: Bounds, bounds: Bounds)
    ensures Fits(spent, used, bounds) <==> Below(ZERO, used) && Below(Plus(spent, used), bounds)
    ensures Below(ZERO, used) ==> (used == ZERO <==> !(used.slots > 0 || used.calls > 0 || used.candidates > 0))
  {
  }

  // --- when it is a breach ----------------------------------------------------------------------

  /** What was announced: the forecast if one was given, else what the operation asked for. */
  function Announced(forecast: Option<int>, asked: int): int {
    match forecast
    case Some(n) => n
    case None => asked
  }

  /** More than the announced units and the tolerated percentage on top. */
  predicate Exceeds(used: int, announced: int, percent: int) {
    100 * used > announced * (100 + percent)
  }

  predicate ExceedsSome(c: Consumption, percent: int) {
    || Exceeds(c.used.slots, Announced(c.forecastSlots, c.operation.endSlot + 1 - c.operation.startSlot), percent)
    || Exceeds(c.used.calls, Announced(c.forecastCalls, c.operation.calls), percent)
    || Exceeds(c.used.candidates, Announced(c.forecastCandidates, c.operation.candidates), percent)
  }

  lemma ToleranceIff(used: int, announced: int, percent: int)
    ensures used as real > announced as real * (1.0 + percent as real / 100.0) <==> Exceeds(used, announced, percent)
  {
    var a, p := announced as real, percent as real;
    var product := a * (1.0 + p / 100.0);
    assert 100.0 * product == a * (100.0 + p);
    assert a * (100.0 + p) == (announced * (100 + percent)) as real;
  }

  lemma BreachedIff(d: Declaration, c: Consumption)
    ensures Breached(d, c) <==> ExceedsSome(c, d.tolerancePercent)
  {
    ToleranceIff(c.used.slots, Announced(c.forecastSlots, c.operation.endSlot + 1 - c.operation.startSlot), d.tolerancePercent);
    ToleranceIff(c.used.calls, Announced(c.forecastCalls, c.operation.calls), d.tolerancePercent);
    ToleranceIff(c.used.candidates, Announced(c.forecastCandidates, c.operation.candidates), d.tolerancePercent);
  }

  // --- and what it leaves -----------------------------------------------------------------------

  /** `ratio` times the forecast, taken as one at least, covers the use. */
  predicate Spans(ratio: real, used: int, forecast: Option<int>) {
    forecast.Some? ==> used as real <= ratio * (if forecast.value > 1 then forecast.value else 1) as real
  }

  predicate SpansExactly(ratio: real, used: int, forecast: Option<int>) {
    forecast.Some? && used as real == ratio * (if forecast.value > 1 then forecast.value else 1) as real
  }

  /** The least factor, one at least, by which every given forecast would have to grow to cover the use. */
  predicate IsOverrun(c: Consumption, ratio: real) {
    && ratio >= 1.0
    && Spans(ratio, c.used.slots, c.forecastSlots) && Spans(ratio, c.used.calls, c.forecastCalls)
    && Spans(ratio, c.used.candidates, c.forecastCandidates)
    && (|| ratio == 1.0 || SpansExactly(ratio, c.used.slots, c.forecastSlots)
        || SpansExactly(ratio, c.used.calls, c.forecastCalls) || SpansExactly(ratio, c.used.candidates, c.forecastCandidates))
  }

  /** The greatest whole bound that the factor does not lift over the old one, or one if there is none. */
  predicate IsCut(bound: int, ratio: real, t: int) {
    t >= 1 && (t == 1 || t as real * ratio <= bound as real) && (t + 1) as real * ratio > bound as real
  }

  predicate AreCut(b: Bounds, ratio: real, t: Bounds) {
    IsCut(b.slots, ratio, t.slots) && IsCut(b.calls, ratio, t.calls) && IsCut(b.candidates, ratio, t.candidates)
  }

  lemma ShareSpans(used: int, forecast: Option<int>, ratio: real)
    requires used >= 0 && ratio >= 1.0 && ratio >= Share(used, forecast)
    ensures Spans(ratio, used, forecast)
    ensures ratio == Share(used, forecast) ==> ratio == 1.0 || SpansExactly(ratio, used, forecast)
  {
    var base := Max(1, OrElse(forecast, used)) as real;
    var share := Share(used, forecast);
    assert share * base == used as real;
    NotNegative(ratio - share, base);
  }

  lemma RatioIsOverrun(c: Consumption)
    requires Below(ZERO, c.used)
    ensures IsOverrun(c, Ratio(c))
  {
    ShareSpans(c.used.slots, c.forecastSlots, Ratio(c));
    ShareSpans(c.used.calls, c.forecastCalls, Ratio(c));
    ShareSpans(c.used.candidates, c.forecastCandidates, Ratio(c));
  }

  lemma TightenedIsCut(bound: int, ratio: real)
    requires ratio >= 1.0
    ensures IsCut(bound, ratio, Tightened(bound, ratio))
  {
    var t, q := Tightened(bound, ratio), bound as real / ratio;
    assert q * ratio == bound as real;
    if t != 1 {
      NotNegative(q - t as real, ratio);
    }
    var next := (t + 1) as real;
    assert q < next;
    Lifted(q, next, ratio, bound as real);
  }

  lemma Lifted(small: real, large: real, ratio: real, product: real)
    requires small < large && ratio >= 1.0 && small * ratio == product
    ensures product < large * ratio
  {
    Positive(large - small, ratio);
  }

  /** A factor and a bound leave one cut only. */
  lemma CutIsUnique(bound: int, ratio: real, t: int, u: int)
    requires ratio >= 1.0 && IsCut(bound, ratio, t) && IsCut(bound, ratio, u)
    ensures t == u
  {
    if t < u {
      NotNegative((u - t - 1) as real, ratio);
    }
    if u < t {
      NotNegative((t - u - 1) as real, ratio);
    }
  }

  /** The row a taken record leaves, if its id is new. */
  lemma UsageWritten(read: Store, s: Store, c: Consumption, at: int)
    requires Record(read, s, c, at).Ok?
    ensures var d, after := read.declarations[c.operation.key], Record(read, s, c, at).value;
            var incident := if ExceedsSome(c, d.tolerancePercent) then Some("chain-access-tolerance:" + c.id) else None;
            && after.declarations == s.declarations
            && after.usages == if HasUsage(s.usages, c.id) then s.usages
                               else s.usages + [Usage(c.id, c.operation.key, c.operation.run, c.used, incident)]
  {
    BreachedIff(read.declarations[c.operation.key], c);
  }

  /**
   A taken record writes an incident exactly when some use exceeds what was announced by more than
   the tolerated percentage and the incident is not known yet. Its bounds are the bounds in force, as
   read, cut by the factor of the overrun.
   */
  lemma IncidentWrittenIff(read: Store, s: Store, c: Consumption, at: int)
    requires Record(read, s, c, at).Ok?
    ensures var key, id := c.operation.key, "chain-access-tolerance:" + c.id;
            var d, after := read.declarations[key], Record(read, s, c, at).value;
            if ExceedsSome(c, d.tolerancePercent) && !HasIncident(s.incidents, id) then
              exists ratio, b ::
                && IsOverrun(c, ratio) && AreCut(Effective(read, key), ratio, b)
                && after.incidents == s.incidents + [Incident(id, c.id, key, b, at)]
            else after.incidents == s.incidents
  {
    var key := c.operation.key;
    BreachedIff(read.declarations[key], c);
    RatioIsOverrun(c);
    var b, ratio := Effective(read, key), Ratio(c);
    TightenedIsCut(b.slots, ratio);
    TightenedIsCut(b.calls, ratio);
    TightenedIsCut(b.candidates, ratio);
    assert AreCut(b, ratio, TightenedBounds(b, ratio));
  }

  /** The incident is what step `j` wrote: a record that exceeded its announcement, under the declaration it read. */
  predicate EarnedBy(trace: seq<Store>, steps: seq<Step>, j: nat, x: Incident)
    requires j < |steps| < |trace|
  {
    && steps[j].DoRecord?
    && var c, read := steps[j].consumption, trace[ReadIndex(steps[j], j)];
       && x.id == "chain-access-tolerance:" + c.id && x.usage == c.id && x.key == c.operation.key && x.recordedAt == steps[j].at
       && x.key in read.declarations && ExceedsSome(c, read.declarations[x.key].tolerancePercent)
  }

  lemma NewIncident(read: Store, s: Store, step: Step, x: Incident)
    requires x in Next(read, s, step).incidents && x !in s.incidents
    ensures step.DoRecord?
    ensures var c := step.consumption;
            && x.id == "chain-access-tolerance:" + c.id && x.usage == c.id && x.key == c.operation.key && x.recordedAt == step.at
            && x.key in read.declarations && ExceedsSome(c, read.declarations[x.key].tolerancePercent)
  {
    var c := step.consumption;
    assert Record(read, s, c, step.at).Ok?;
    IncidentWrittenIff(read, s, c, step.at);
  }

  /** In every interleaving, each incident stems from a step that exceeded its announcement beyond tolerance. */
  lemma {:induction false} IncidentsAreEarned(trace: seq<Store>, steps: seq<Step>, k: nat, x: Incident) returns (j: nat)
    requires IsTrace(trace, steps) && k < |trace| && x in trace[k].incidents
    ensures j < k && EarnedBy(trace, steps, j, x)
  {
    var p := k - 1;
    if x in trace[p].incidents {
      j := IncidentsAreEarned(trace, steps, p, x);
    } else {
      j := p;
      var step := steps[p];
      NewIncident(trace[ReadIndex(step, p)], trace[p], step, x);
    }
  }

  /** There is one factor. */
  lemma OverrunIsUnique(c: Consumption, a: real, b: real)
    requires IsOverrun(c, a) && IsOverrun(c, b)
    ensures a == b
  {
    LeastFactor(c, a, b);
    LeastFactor(c, b, a);
  }

  lemma LeastFactor(c: Consumption, small: real, large: real)
    requires IsOverrun(c, small) && IsOverrun(c, large)
    ensures small >= large
  {
    NotExact(small, large, c.used.slots, c.forecastSlots);
    NotExact(small, large, c.used.calls, c.forecastCalls);
    NotExact(small, large, c.used.candidates, c.forecastCandidates);
  }

  lemma NotExact(small: real, large: real, used: int, forecast: Option<int>)
    requires Spans(small, used, forecast)
    ensures SpansExactly(large, used, forecast) ==> small >= large
  {
    if forecast.Some? && small < large {
      Positive(large - small, (if forecast.value > 1 then forecast.value else 1) as real);
    }
  }

  // --- registration -----------------------------------------------------------------------------

  /** A declaration is taken exactly when it is well formed and either stored already as it is or newer than every stored version. */
  lemma RegisterIff(s: Store, key: Key, d: Declaration)
    ensures Register(s, key, d).Ok? <==>
            && key.1 >= 1 && |d.programs| > 0 && d.windowSeconds >= 1 && 1 <= d.tolerancePercent <= 100
            && d.bounds.slots >= 1 && d.bounds.calls >= 1 && d.bounds.candidates >= 1
            && ((key in s.declarations && s.declarations[key] == d)
                || forall k :: k in s.declarations && k.0 == key.0 ==> k.1 < key.1)
    ensures Register(s, key, d).Ok? ==> Register(s, key, d).value == s.(declarations := s.declarations[key := d])
  {
    if key in s.declarations && s.declarations[key] == d {
      assert s.declarations[key := d] == s.declarations;
    }
  }
}
