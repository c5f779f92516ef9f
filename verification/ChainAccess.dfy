/**
 The chain-access gate: declared bounds, recorded consumption, and incidents that tighten the bounds.

 `record` reads effective bounds and run totals first and writes later, outside a transaction, so a
 step names the earlier state it read. A step that read the state it writes is serial.
 */
module ChainAccess {
  import opened Prelude
  import opened TextOrder

  datatype Bounds = Bounds(slots: int, calls: int, candidates: int)

  type Key = (string, int)

  datatype Declaration = Declaration(purpose: string, chain: string, programs: seq<string>, bounds: Bounds, windowSeconds: int, tolerancePercent: int)

  datatype Usage = Usage(id: string, key: Key, run: string, used: Bounds, incident: Option<string>)

  datatype Incident = Incident(id: string, usage: string, key: Key, bounds: Bounds, recordedAt: int)

  datatype Store = Store(declarations: map<Key, Declaration>, usages: seq<Usage>, incidents: seq<Incident>)

  datatype Operation = Operation(run: string, key: Key, purpose: string, chain: string, programs: seq<string>,
                                 candidates: int, startSlot: int, endSlot: int, calls: int, windowSeconds: int)

  datatype Consumption = Consumption(id: string, operation: Operation, used: Bounds,
                                     forecastSlots: Option<int>, forecastCalls: Option<int>, forecastCandidates: Option<int>)

  datatype Refusal = DeclarationInvalid | BoundsChangedInPlace | VersionNotAdvancing | UnknownDeclaration | NotDeclared | BoundExceeded
                   | HardBoundExceeded | ConstraintViolated

  predicate Below(a: Bounds, b: Bounds) { a.slots <= b.slots && a.calls <= b.calls && a.candidates <= b.candidates }

  function Plus(a: Bounds, b: Bounds): Bounds { Bounds(a.slots + b.slots, a.calls + b.calls, a.candidates + b.candidates) }

  const ZERO: Bounds := Bounds(0, 0, 0)

  const ONE: Bounds := Bounds(1, 1, 1)

  function Min(a: int, b: int): int { if a <= b then a else b }

  function Max(a: int, b: int): int { if a >= b then a else b }

  function MinBounds(a: Bounds, b: Bounds): (r: Bounds)
    ensures Below(r, a) && Below(r, b)
  {
    Bounds(Min(a.slots, b.slots), Min(a.calls, b.calls), Min(a.candidates, b.candidates))
  }

  // --- reads ------------------------------------------------------------------------------------

  /** Newer in the order of the incident query. */
  predicate Newer(a: Incident, b: Incident) {
    a.recordedAt > b.recordedAt || (a.recordedAt == b.recordedAt && Less(b.id, a.id))
  }

  function Top(incidents: seq<Incident>, key: Key): (r: Option<Incident>)
    ensures r.Some? ==> r.value in incidents && r.value.key == key
  {
    if incidents == [] then None
    else
      var last, rest := incidents[|incidents| - 1], Top(incidents[..|incidents| - 1], key);
      if last.key == key && (rest.None? || Newer(last, rest.value)) then Some(last) else rest
  }

  /** `loadEffective`: the declared bounds, capped by the newest incident. */
  function Effective(s: Store, key: Key): (r: Bounds)
    requires key in s.declarations
    ensures Below(r, s.declarations[key].bounds)
  {
    var top := Top(s.incidents, key);
    if top.None? then s.declarations[key].bounds else MinBounds(s.declarations[key].bounds, top.value.bounds)
  }

  /** What one run has recorded against a declaration. */
  function Total(usages: seq<Usage>, run: string, key: Key): Bounds {
    if usages == [] then ZERO
    else
      var last, rest := usages[|usages| - 1], Total(usages[..|usages| - 1], run, key);
      if last.run == run && last.key == key then Plus(rest, last.used) else rest
  }

  /** `admitChainAccessOperation` under the effective bounds. */
  function OperationRefusal(d: Declaration, bounds: Bounds, op: Operation): Option<Refusal> {
    if op.purpose != d.purpose || op.chain != d.chain || op.programs == [] || (exists i :: 0 <= i < |op.programs| && op.programs[i] !in d.programs) then
      Some(NotDeclared)
    else if op.candidates < 0 || op.startSlot < 0 || op.endSlot < 0 || op.calls < 0 || op.windowSeconds < 0 then Some(BoundExceeded)
    else if || op.endSlot < op.startSlot || op.candidates > bounds.candidates || op.endSlot - op.startSlot + 1 > bounds.slots
            || op.calls > bounds.calls || op.windowSeconds > d.windowSeconds then
      Some(BoundExceeded)
    else None
  }

  // --- one record -------------------------------------------------------------------------------

  function OrElse(forecast: Option<int>, other: int): int { if forecast.Some? then forecast.value else other }

  predicate Breached(d: Declaration, c: Consumption) {
    var tolerance := 1.0 + d.tolerancePercent as real / 100.0;
    || c.used.slots as real > OrElse(c.forecastSlots, c.operation.endSlot - c.operation.startSlot + 1) as real * tolerance
    || c.used.calls as real > OrElse(c.forecastCalls, c.operation.calls) as real * tolerance
    || c.used.candidates as real > OrElse(c.forecastCandidates, c.operation.candidates) as real * tolerance
  }

  function Share(used: int, forecast: Option<int>): real { used as real / Max(1, OrElse(forecast, used)) as real }

  function MaxReal(a: real, b: real): real { if a >= b then a else b }

  function Ratio(c: Consumption): (r: real)
    ensures r >= 1.0
  {
    MaxReal(1.0, MaxReal(Share(c.used.slots, c.forecastSlots),
                         MaxReal(Share(c.used.calls, c.forecastCalls), Share(c.used.candidates, c.forecastCandidates))))
  }

  function Tightened(bound: int, ratio: real): int
    requires ratio >= 1.0
  {
    Max(1, (bound as real / ratio).Floor)
  }

  function TightenedBounds(b: Bounds, ratio: real): Bounds
    requires ratio >= 1.0
  {
    Bounds(Tightened(b.slots, ratio), Tightened(b.calls, ratio), Tightened(b.candidates, ratio))
  }

  predicate HasUsage(usages: seq<Usage>, id: string) { exists i :: 0 <= i < |usages| && usages[i].id == id }

  predicate HasIncident(incidents: seq<Incident>, id: string) { exists i :: 0 <= i < |incidents| && incidents[i].id == id }

  function IncidentId(c: Consumption): string { "chain-access-tolerance:" + c.id }

  /** Everything `record` decides from what it read. */
  function RecordRefusal(read: Store, c: Consumption): Option<Refusal> {
    var key := c.operation.key;
    if key !in read.declarations then Some(UnknownDeclaration)
    else
      var d, bounds := read.declarations[key], Effective(read, key);
      var refusal := OperationRefusal(d, bounds, c.operation);
      if refusal.Some? then refusal
      else if !Below(ZERO, c.used) then Some(BoundExceeded)
      else if !Below(Plus(Total(read.usages, c.operation.run, key), c.used), bounds) then Some(HardBoundExceeded)
      else if c.used == ZERO || c.operation.run == "" then Some(ConstraintViolated)
      else None
  }

  /** The two inserts of `record`; a known id inserts nothing. */
  function Written(read: Store, s: Store, c: Consumption, at: int): Store
    requires RecordRefusal(read, c).None?
  {
    var key := c.operation.key;
    var breached := Breached(read.declarations[key], c);
    var usage := Usage(c.id, key, c.operation.run, c.used, if breached then Some(IncidentId(c)) else None);
    var usages := if HasUsage(s.usages, c.id) then s.usages else s.usages + [usage];
    var incident := Incident(IncidentId(c), c.id, key, TightenedBounds(Effective(read, key), Ratio(c)), at);
    var incidents := if !breached || HasIncident(s.incidents, IncidentId(c)) then s.incidents else s.incidents + [incident];
    s.(usages := usages, incidents := incidents)
  }

  function Record(read: Store, s: Store, c: Consumption, at: int): Result<Store, Refusal> {
    var refusal := RecordRefusal(read, c);
    if refusal.Some? then Err(refusal.value) else Ok(Written(read, s, c, at))
  }

  predicate ValidDeclaration(d: Declaration) {
    d.programs != [] && Below(ONE, d.bounds) && d.windowSeconds > 0 && 1 <= d.tolerancePercent <= 100
  }

  /** `register`: bounds never change in place; a change needs a higher version. */
  function Register(s: Store, key: Key, d: Declaration): Result<Store, Refusal> {
    if key.1 < 1 || !ValidDeclaration(d) then Err(DeclarationInvalid)
    else if key in s.declarations then if s.declarations[key] == d then Ok(s) else Err(BoundsChangedInPlace)
    else if exists k :: k in s.declarations && k.0 == key.0 && key.1 <= k.1 then Err(VersionNotAdvancing)
    else Ok(s.(declarations := s.declarations[key := d]))
  }

  // --- runs -------------------------------------------------------------------------------------

  datatype Step = DoRegister(key: Key, declaration: Declaration) | DoRecord(consumption: Consumption, readAt: nat, at: int)

  function ReadIndex(step: Step, now: nat): (i: nat)
    ensures i <= now
  {
    if step.DoRecord? && step.readAt < now then step.readAt else now
  }

  function Next(read: Store, s: Store, step: Step): Store {
    var outcome := match step
      case DoRegister(key, declaration) => Register(s, key, declaration)
      case DoRecord(c, _, at) => Record(read, s, c, at);
    if outcome.Ok? then outcome.value else s
  }

  predicate IsTrace(trace: seq<Store>, steps: seq<Step>) {
    && |trace| == |steps| + 1
    && trace[0] == Store(map[], [], [])
    && forall k {:trigger steps[k]} :: 0 <= k < |steps| ==> trace[k + 1] == Next(trace[ReadIndex(steps[k], k)], trace[k], steps[k])
  }

  predicate Serial(steps: seq<Step>) {
    forall k {:trigger steps[k]} :: 0 <= k < |steps| ==> ReadIndex(steps[k], k) == k
  }

  // --- bounds -----------------------------------------------------------------------------------

  lemma TightenedShrinks(bound: int, ratio: real)
    requires ratio >= 1.0 && bound >= 1
    ensures 1 <= Tightened(bound, ratio) <= bound
  {
    var q := bound as real / ratio;
    assert q * ratio == bound as real;
    assert q >= 0.0;
    NotNegative(q, ratio - 1.0);
  }

  predicate BoundsPositive(s: Store) {
    && (forall k :: k in s.declarations ==> Below(ONE, s.declarations[k].bounds))
    && (forall i :: 0 <= i < |s.incidents| ==> Below(ONE, s.incidents[i].bounds))
  }

  lemma StepKeepsPositive(read: Store, s: Store, step: Step)
    requires BoundsPositive(s)
    ensures BoundsPositive(Next(read, s, step))
    ensures forall k :: k in s.declarations ==> k in Next(read, s, step).declarations && Next(read, s, step).declarations[k] == s.declarations[k]
  {
  }

  lemma {:induction false} AlwaysPositive(trace: seq<Store>, steps: seq<Step>, k: nat)
    requires IsTrace(trace, steps) && k < |trace|
    ensures BoundsPositive(trace[k])
  {
    if k > 0 {
      AlwaysPositive(trace, steps, k - 1);
      var step := steps[k - 1];
      StepKeepsPositive(trace[ReadIndex(step, k - 1)], trace[k - 1], step);
    }
  }

  /** Effective bounds lie between one and the declared bounds, in every interleaving. */
  lemma EffectiveInRange(trace: seq<Store>, steps: seq<Step>, k: nat, key: Key)
    requires IsTrace(trace, steps) && k < |trace| && key in trace[k].declarations
    ensures Below(ONE, Effective(trace[k], key)) && Below(Effective(trace[k], key), trace[k].declarations[key].bounds)
  {
    AlwaysPositive(trace, steps, k);
  }

  // --- what a record does to the bounds ---------------------------------------------------------

  /** The record writes an incident, and it becomes the newest of its declaration in `s`. */
  predicate RecordsNewest(read: Store, s: Store, c: Consumption, at: int)
    requires RecordRefusal(read, c).None?
  {
    && Breached(read.declarations[c.operation.key], c) && !HasIncident(s.incidents, IncidentId(c))
    && var top := Top(s.incidents, c.operation.key);
       top.None? || at > top.value.recordedAt || (at == top.value.recordedAt && Less(top.value.id, IncidentId(c)))
  }

  /** The bounds in force after a record that read `read` and wrote onto `s`. */
  lemma EffectiveAfterRecord(read: Store, s: Store, c: Consumption, at: int, key: Key)
    requires RecordRefusal(read, c).None? && key in s.declarations
    ensures Effective(Written(read, s, c, at), key)
         == if key == c.operation.key && RecordsNewest(read, s, c, at)
            then MinBounds(s.declarations[key].bounds, TightenedBounds(Effective(read, key), Ratio(c)))
            else Effective(s, key)
  {
    var t := Written(read, s, c, at);
    if t.incidents != s.incidents {
      var x := t.incidents[|s.incidents|];
      assert t.incidents == s.incidents + [x];
      TopAppend(s.incidents, x, key);
    }
  }

  lemma TopAppend(incidents: seq<Incident>, x: Incident, key: Key)
    ensures var rest := Top(incidents, key);
            Top(incidents + [x], key) == if x.key == key && (rest.None? || Newer(x, rest.value)) then Some(x) else rest
  {
    assert (incidents + [x])[..|incidents|] == incidents;
  }

  lemma TightenedBelow(b: Bounds, ratio: real)
    requires ratio >= 1.0 && Below(ONE, b)
    ensures Below(ONE, TightenedBounds(b, ratio)) && Below(TightenedBounds(b, ratio), b)
  {
    TightenedShrinks(b.slots, ratio);
    TightenedShrinks(b.calls, ratio);
    TightenedShrinks(b.candidates, ratio);
  }

  /** A record that read what it writes onto never loosens a bound, whatever the clock says about its incident. */
  lemma SerialRecordTightens(s: Store, c: Consumption, at: int, key: Key)
    requires BoundsPositive(s) && key in s.declarations && RecordRefusal(s, c).None?
    ensures Below(Effective(Written(s, s, c, at), key), Effective(s, key))
  {
    EffectiveAfterRecord(s, s, c, at, key);
    TightenedBelow(Effective(s, key), Ratio(c));
  }

  // --- how much a breach tightens ---------------------------------------------------------------

  /** More was used than an explicit forecast announced. */
  predicate Overran(used: int, forecast: Option<int>) {
    forecast.Some? && used > Max(1, forecast.value)
  }

  lemma ShareAboveOneIff(used: int, forecast: Option<int>)
    requires used >= 0
    ensures Share(used, forecast) > 1.0 <==> Overran(used, forecast)
  {
    var base := Max(1, OrElse(forecast, used));
    AboveOneIff(used, base);
  }

  lemma AboveOneIff(a: int, b: int)
    requires b >= 1
    ensures a as real / b as real > 1.0 <==> a > b
  {
    var q := a as real / b as real;
    assert q * b as real == a as real;
    if q > 1.0 {
      Positive(q - 1.0, b as real);
    } else {
      NotNegative(1.0 - q, b as real);
    }
  }

  lemma RatioAboveOneIff(c: Consumption)
    requires Below(ZERO, c.used)
    ensures Ratio(c) > 1.0 <==> OverranForecast(c)
  {
    ShareAboveOneIff(c.used.slots, c.forecastSlots);
    ShareAboveOneIff(c.used.calls, c.forecastCalls);
    ShareAboveOneIff(c.used.candidates, c.forecastCandidates);
  }

  /** A bound above one shrinks exactly when the ratio exceeds one, and then at least in proportion. */
  lemma TightenedIff(bound: int, ratio: real)
    requires ratio >= 1.0 && bound >= 1
    ensures Tightened(bound, ratio) < bound <==> bound > 1 && ratio > 1.0
    ensures Tightened(bound, ratio) == 1 || Tightened(bound, ratio) as real * ratio <= bound as real
  {
    TightenedShrinks(bound, ratio);
    var q := bound as real / ratio;
    assert q * ratio == bound as real;
    if ratio > 1.0 {
      assert q > 0.0;
      Positive(q, ratio - 1.0);
    }
    var t := Tightened(bound, ratio);
    if t != 1 {
      assert q - t as real >= 0.0;
      NotNegative(q - t as real, ratio);
    }
  }

  lemma Positive(x: real, y: real)
    requires x > 0.0 && y > 0.0
    ensures x * y > 0.0
  {
  }

  lemma NotNegative(x: real, y: real)
    requires x >= 0.0 && y >= 0.0
    ensures x * y >= 0.0
  {
  }

  predicate Tighter(a: Bounds, b: Bounds) {
    && (a.slots < b.slots <==> b.slots > 1) && (a.calls < b.calls <==> b.calls > 1)
    && (a.candidates < b.candidates <==> b.candidates > 1)
  }

  /** Some use exceeds a forecast the caller gave. */
  predicate OverranForecast(c: Consumption) {
    || Overran(c.used.slots, c.forecastSlots) || Overran(c.used.calls, c.forecastCalls)
    || Overran(c.used.candidates, c.forecastCandidates)
  }

  /**
   An uninterrupted record tightens every bound above one exactly when it writes the newest incident
   of its declaration and some use overran an explicit forecast. Any other record, breach or not,
   leaves every bound as it was.
   */
  lemma BreachTightensIff(s: Store, c: Consumption, at: int)
    requires BoundsPositive(s) && RecordRefusal(s, c).None?
    ensures var key := c.operation.key;
            var before, after := Effective(s, key), Effective(Written(s, s, c, at), key);
            if RecordsNewest(s, s, c, at) && OverranForecast(c) then Tighter(after, before) else after == before
  {
    var b, r := Effective(s, c.operation.key), Ratio(c);
    EffectiveAfterRecord(s, s, c, at, c.operation.key);
    RatioAboveOneIff(c);
    TightenedIff(b.slots, r);
    TightenedIff(b.calls, r);
    TightenedIff(b.candidates, r);
    TightenedBelow(b, r);
  }

  // --- totals -----------------------------------------------------------------------------------

  lemma TotalAppend(usages: seq<Usage>, u: Usage, run: string, key: Key)
    ensures Total(usages + [u], run, key)
         == if u.run == run && u.key == key then Plus(Total(usages, run, key), u.used) else Total(usages, run, key)
  {
    assert (usages + [u])[..|usages|] == usages;
  }

  /** A replayed consumption id leaves every run's total as it was. */
  lemma ReplayAddsNothing(read: Store, s: Store, c: Consumption, at: int, run: string, key: Key)
    requires HasUsage(s.usages, c.id) && Record(read, s, c, at).Ok?
    ensures Total(Record(read, s, c, at).value.usages, run, key) == Total(s.usages, run, key)
  {
  }

  // --- the running gate -------------------------------------------------------------------------

  class ChainAccessGate {
    var declarations: map<Key, Declaration>
    var usages: seq<Usage>
    var incidents: seq<Incident>

    function Contents(): Store
      reads this
    {
      Store(declarations, usages, incidents)
    }

    constructor ()
      ensures Contents() == Store(map[], [], [])
    {
      declarations, usages, incidents := map[], [], [];
    }

    /** `SELECT COALESCE(sum(...), 0)` over one run. */
    method SumRun(run: string, key: Key) returns (total: Bounds)
      ensures total == Total(usages, run, key)
    {
      total := ZERO;
      for i := 0 to |usages|
        invariant total == Total(usages[..i], run, key)
      {
        assert usages[..i + 1][..i] == usages[..i];
        if usages[i].run == run && usages[i].key == key {
          total := Plus(total, usages[i].used);
        }
      }
      assert usages[..|usages|] == usages;
    }

    /** `loadEffective`. */
    method LoadEffective(key: Key) returns (bounds: Bounds)
      requires key in declarations
      ensures bounds == Effective(Contents(), key)
    {
      var top: Option<Incident> := None;
      for i := 0 to |incidents|
        invariant top == Top(incidents[..i], key)
      {
        assert incidents[..i + 1][..i] == incidents[..i];
        if incidents[i].key == key && (top.None? || Newer(incidents[i], top.value)) {
          top := Some(incidents[i]);
        }
      }
      assert incidents[..|incidents|] == incidents;
      bounds := declarations[key].bounds;
      if top.Some? {
        bounds := MinBounds(bounds, top.value.bounds);
      }
    }

    /** A `record` that nothing interleaves with: totals stay declared, bounds never loosen. */
    method RecordUsage(c: Consumption, at: int) returns (r: Option<Refusal>)
      requires BoundsPositive(Contents())
      modifies this`usages, this`incidents
      ensures match Record(old(Contents()), old(Contents()), c, at)
              case Ok(after) => r.None? && Contents() == after
              case Err(refusal) => r == Some(refusal) && Contents() == old(Contents())
      ensures forall key :: key in declarations ==> Below(Effective(Contents(), key), Effective(old(Contents()), key))
    {
      ghost var before := Contents();
      var key := c.operation.key;
      if key !in declarations { return Some(UnknownDeclaration); }
      var d := declarations[key];
      var bounds := LoadEffective(key);
      r := OperationRefusal(d, bounds, c.operation);
      if r.Some? { return; }
      if !Below(ZERO, c.used) { return Some(BoundExceeded); }
      var prior := SumRun(c.operation.run, key);
      if !Below(Plus(prior, c.used), bounds) { return Some(HardBoundExceeded); }
      if c.used == ZERO || c.operation.run == "" { return Some(ConstraintViolated); }
      var breached := Breached(d, c);
      if !HasUsage(usages, c.id) {
        usages := usages + [Usage(c.id, key, c.operation.run, c.used, if breached then Some(IncidentId(c)) else None)];
      }
      if breached && !HasIncident(incidents, IncidentId(c)) {
        incidents := incidents + [Incident(IncidentId(c), c.id, key, TightenedBounds(bounds, Ratio(c)), at)];
      }
      assert Contents() == Written(before, before, c, at);
      forall k | k in declarations ensures Below(Effective(Contents(), k), Effective(before, k)) {
        SerialRecordTightens(before, c, at, k);
      }
    }
  }
}
