/**
 Runs of the chain-access gate whose records read the bounds and totals of an earlier moment: when
 the two promises survive, exactly, and what a caller can do to be safe.
 */
module ChainAccessTraces {
  import opened Prelude
  import opened ChainAccess

  lemma TraceStep(trace: seq<Store>, steps: seq<Step>, k: nat)
    requires IsTrace(trace, steps) && k < |steps|
    ensures trace[k + 1] == Next(trace[ReadIndex(steps[k], k)], trace[k], steps[k])
  {
  }

  /** A declaration never changes once it is registered. */
  lemma {:induction false} DeclarationsStay(trace: seq<Store>, steps: seq<Step>, j: nat, k: nat, key: Key)
    requires IsTrace(trace, steps) && j <= k < |trace| && key in trace[j].declarations
    ensures key in trace[k].declarations && trace[k].declarations[key] == trace[j].declarations[key]
    decreases k
  {
    if j < k {
      DeclarationsStay(trace, steps, j, k - 1, key);
      TraceStep(trace, steps, k - 1);
    }
  }

  /** Step `k` is a record against this declaration that its read admits. */
  predicate Records(trace: seq<Store>, steps: seq<Step>, k: nat, key: Key)
    requires |trace| == |steps| + 1 && k < |steps|
  {
    && steps[k].DoRecord? && steps[k].consumption.operation.key == key
    && RecordRefusal(trace[ReadIndex(steps[k], k)], steps[k].consumption).None?
  }

  lemma RecordsRegistered(trace: seq<Store>, steps: seq<Step>, k: nat, key: Key)
    requires IsTrace(trace, steps) && k < |steps| && Records(trace, steps, k, key)
    ensures var read := trace[ReadIndex(steps[k], k)];
            && key in read.declarations && key in trace[k].declarations && trace[k].declarations[key] == read.declarations[key]
            && trace[k + 1] == Written(read, trace[k], steps[k].consumption, steps[k].at)
            && trace[k + 1].declarations == trace[k].declarations
  {
    DeclarationsStay(trace, steps, ReadIndex(steps[k], k), k, key);
    TraceStep(trace, steps, k);
  }

  // --- totals -----------------------------------------------------------------------------------

  /** Step `k` adds a new consumption of this run to this declaration. */
  predicate Adds(trace: seq<Store>, steps: seq<Step>, k: nat, run: string, key: Key)
    requires |trace| == |steps| + 1 && k < |steps|
  {
    && Records(trace, steps, k, key) && steps[k].consumption.operation.run == run
    && !HasUsage(trace[k].usages, steps[k].consumption.id)
  }

  lemma TotalStep(trace: seq<Store>, steps: seq<Step>, k: nat, run: string, key: Key)
    requires IsTrace(trace, steps) && k < |steps|
    ensures Total(trace[k + 1].usages, run, key)
         == if Adds(trace, steps, k, run, key) then Plus(Total(trace[k].usages, run, key), steps[k].consumption.used)
            else Total(trace[k].usages, run, key)
    ensures Adds(trace, steps, k, run, key) ==> Below(ZERO, steps[k].consumption.used)
  {
    TraceStep(trace, steps, k);
    var s, t := trace[k], trace[k + 1];
    if t.usages != s.usages {
      assert t.usages == s.usages + [t.usages[|s.usages|]];
      TotalAppend(s.usages, t.usages[|s.usages|], run, key);
    }
  }

  /** Nothing is recorded against a declaration before it is registered. */
  lemma {:induction false} NothingBeforeRegistration(trace: seq<Store>, steps: seq<Step>, k: nat, run: string, key: Key)
    requires IsTrace(trace, steps) && k < |trace| && key !in trace[k].declarations
    ensures Total(trace[k].usages, run, key) == ZERO
  {
    if k > 0 {
      if key in trace[k - 1].declarations { DeclarationsStay(trace, steps, k - 1, k, key); }
      NothingBeforeRegistration(trace, steps, k - 1, run, key);
      TotalStep(trace, steps, k - 1, run, key);
      if Adds(trace, steps, k - 1, run, key) { RecordsRegistered(trace, steps, k - 1, key); }
    }
  }

  function Minus(a: Bounds, b: Bounds): Bounds { Bounds(a.slots - b.slots, a.calls - b.calls, a.candidates - b.candidates) }

  /** What the read of a record leaves for others: the declaration less what it read and its own use. */
  function Room(read: Store, c: Consumption): Bounds
    requires c.operation.key in read.declarations
  {
    Minus(read.declarations[c.operation.key].bounds, Plus(Total(read.usages, c.operation.run, c.operation.key), c.used))
  }

  /** What was recorded for the run between two moments. */
  function Since(earlier: Store, later: Store, run: string, key: Key): Bounds {
    Minus(Total(later.usages, run, key), Total(earlier.usages, run, key))
  }

  /** The record commits although what others recorded since its read exceeds the room its read left. */
  predicate Overruns(trace: seq<Store>, steps: seq<Step>, k: nat, run: string, key: Key)
    requires |trace| == |steps| + 1 && k < |steps|
  {
    && Adds(trace, steps, k, run, key)
    && var read := trace[ReadIndex(steps[k], k)];
       !Below(Since(read, trace[k], run, key), Room(read, steps[k].consumption))
  }

  /** The run's total is within the declaration at this moment. */
  predicate Within(s: Store, run: string, key: Key) {
    key in s.declarations ==> Below(Total(s.usages, run, key), s.declarations[key].bounds)
  }

  lemma StepStaysWithin(trace: seq<Store>, steps: seq<Step>, k: nat, run: string, key: Key)
    requires IsTrace(trace, steps) && k < |steps| && Within(trace[k], run, key)
    ensures Within(trace[k + 1], run, key) <==> !Overruns(trace, steps, k, run, key)
  {
    TotalStep(trace, steps, k, run, key);
    if Adds(trace, steps, k, run, key) {
      RecordsRegistered(trace, steps, k, key);
    } else if key in trace[k].declarations {
      DeclarationsStay(trace, steps, k, k + 1, key);
    } else {
      NothingBeforeRegistration(trace, steps, k, run, key);
      AlwaysPositive(trace, steps, k + 1);
    }
  }

  lemma {:induction false} WithinUntilOverrun(trace: seq<Store>, steps: seq<Step>, k: nat, run: string, key: Key)
    requires IsTrace(trace, steps) && k < |trace|
    requires forall j :: 0 <= j < k ==> !Overruns(trace, steps, j, run, key)
    ensures Within(trace[k], run, key)
  {
    if k > 0 {
      WithinUntilOverrun(trace, steps, k - 1, run, key);
      StepStaysWithin(trace, steps, k - 1, run, key);
    }
  }

  /** Totals only grow, so an overrun is never repaired. */
  lemma {:induction false} TotalsGrow(trace: seq<Store>, steps: seq<Step>, j: nat, k: nat, run: string, key: Key)
    requires IsTrace(trace, steps) && j <= k < |trace|
    ensures Below(Total(trace[j].usages, run, key), Total(trace[k].usages, run, key))
    decreases k
  {
    if j < k {
      TotalsGrow(trace, steps, j, k - 1, run, key);
      TotalStep(trace, steps, k - 1, run, key);
    }
  }

  lemma OverrunIsForever(trace: seq<Store>, steps: seq<Step>, j: nat, k: nat, run: string, key: Key)
    requires IsTrace(trace, steps) && j < |steps| && j < k < |trace| && Overruns(trace, steps, j, run, key)
    ensures !Within(trace[k], run, key)
  {
    RecordsRegistered(trace, steps, j, key);
    TotalStep(trace, steps, j, run, key);
    DeclarationsStay(trace, steps, j + 1, k, key);
    TotalsGrow(trace, steps, j + 1, k, run, key);
  }

  /**
   The consumption law, exactly: at every moment of an interleaved run the totals are within the
   declaration if and only if no committed new record found that what was recorded since its read
   exceeds the room its read left. The last moment decides for all.
   */
  lemma TotalsWithinIff(trace: seq<Store>, steps: seq<Step>, k: nat, run: string, key: Key)
    requires IsTrace(trace, steps) && k < |trace|
    ensures Within(trace[k], run, key) <==> forall j :: 0 <= j < k ==> !Overruns(trace, steps, j, run, key)
    ensures (forall i :: 0 <= i <= k ==> Within(trace[i], run, key)) <==> Within(trace[k], run, key)
  {
    if forall j :: 0 <= j < k ==> !Overruns(trace, steps, j, run, key) {
      forall i | 0 <= i <= k ensures Within(trace[i], run, key) {
        WithinUntilOverrun(trace, steps, i, run, key);
      }
    } else {
      var j :| 0 <= j < k && Overruns(trace, steps, j, run, key);
      OverrunIsForever(trace, steps, j, k, run, key);
    }
  }

  /** No other record of the run and declaration commits between this record's read and its write. */
  predicate Undisturbed(trace: seq<Store>, steps: seq<Step>, k: nat, run: string, key: Key)
    requires |trace| == |steps| + 1 && k < |steps|
  {
    forall i :: ReadIndex(steps[k], k) <= i < k ==> !Adds(trace, steps, i, run, key)
  }

  lemma {:induction false} QuietTotals(trace: seq<Store>, steps: seq<Step>, j: nat, k: nat, run: string, key: Key)
    requires IsTrace(trace, steps) && j <= k < |trace| && forall i :: j <= i < k ==> !Adds(trace, steps, i, run, key)
    ensures Total(trace[k].usages, run, key) == Total(trace[j].usages, run, key)
    decreases k
  {
    if j < k {
      QuietTotals(trace, steps, j, k - 1, run, key);
      TotalStep(trace, steps, k - 1, run, key);
    }
  }

  lemma UndisturbedNeverOverruns(trace: seq<Store>, steps: seq<Step>, k: nat, run: string, key: Key)
    requires IsTrace(trace, steps) && k < |steps| && Undisturbed(trace, steps, k, run, key)
    ensures !Overruns(trace, steps, k, run, key)
  {
    QuietTotals(trace, steps, ReadIndex(steps[k], k), k, run, key);
  }

  /** What callers can arrange: records of a run that do not overlap keep it within the declaration. */
  lemma UndisturbedRunsStayWithin(trace: seq<Store>, steps: seq<Step>, k: nat, run: string, key: Key)
    requires IsTrace(trace, steps) && k < |trace| && key in trace[k].declarations
    requires forall j :: 0 <= j < k && Adds(trace, steps, j, run, key) ==> Undisturbed(trace, steps, j, run, key)
    ensures Below(Total(trace[k].usages, run, key), trace[k].declarations[key].bounds)
  {
    forall j | 0 <= j < k ensures !Overruns(trace, steps, j, run, key) {
      if Adds(trace, steps, j, run, key) { UndisturbedNeverOverruns(trace, steps, j, run, key); }
    }
    WithinUntilOverrun(trace, steps, k, run, key);
  }

  /** Over every serial run, no run records more than the declaration allows, replays included. */
  lemma TotalsStayWithinBounds(trace: seq<Store>, steps: seq<Step>, k: nat, run: string, key: Key)
    requires IsTrace(trace, steps) && Serial(steps) && k < |trace| && key in trace[k].declarations
    ensures Below(Total(trace[k].usages, run, key), trace[k].declarations[key].bounds)
  {
    forall j | 0 <= j < k ensures Undisturbed(trace, steps, j, run, key) {
      assert ReadIndex(steps[j], j) == j;
    }
    UndisturbedRunsStayWithin(trace, steps, k, run, key);
  }

  // --- effective bounds -------------------------------------------------------------------------

  /**
   The record's incident becomes the newest of its declaration, and the bounds it derived from its
   read are not below the bounds in force where it is written.
   */
  predicate Loosens(read: Store, s: Store, c: Consumption, at: int)
    requires RecordRefusal(read, c).None? && c.operation.key in s.declarations
  {
    var key := c.operation.key;
    && RecordsNewest(read, s, c, at)
    && !Below(MinBounds(s.declarations[key].bounds, TightenedBounds(Effective(read, key), Ratio(c))), Effective(s, key))
  }

  predicate LoosensAt(trace: seq<Store>, steps: seq<Step>, k: nat, key: Key)
    requires |trace| == |steps| + 1 && k < |steps|
  {
    && Records(trace, steps, k, key) && key in trace[k].declarations
    && Loosens(trace[ReadIndex(steps[k], k)], trace[k], steps[k].consumption, steps[k].at)
  }

  /** One record, whatever it read: it loosens the bounds exactly in that case, and those of no other declaration. */
  lemma RecordLoosensIff(read: Store, s: Store, c: Consumption, at: int, key: Key)
    requires RecordRefusal(read, c).None? && c.operation.key in s.declarations && key in s.declarations
    ensures !Below(Effective(Written(read, s, c, at), key), Effective(s, key)) <==> key == c.operation.key && Loosens(read, s, c, at)
  {
    EffectiveAfterRecord(read, s, c, at, key);
  }

  lemma StepLoosensIff(trace: seq<Store>, steps: seq<Step>, k: nat, key: Key)
    requires IsTrace(trace, steps) && k < |steps| && key in trace[k].declarations
    ensures key in trace[k + 1].declarations
    ensures !Below(Effective(trace[k + 1], key), Effective(trace[k], key)) <==> LoosensAt(trace, steps, k, key)
  {
    DeclarationsStay(trace, steps, k, k + 1, key);
    TraceStep(trace, steps, k);
    if steps[k].DoRecord? && RecordRefusal(trace[ReadIndex(steps[k], k)], steps[k].consumption).None? {
      RecordsRegistered(trace, steps, k, steps[k].consumption.operation.key);
      RecordLoosensIff(trace[ReadIndex(steps[k], k)], trace[k], steps[k].consumption, steps[k].at, key);
    }
  }

  /** Between these two moments the effective bounds did not increase. */
  predicate NotLooser(trace: seq<Store>, i: nat, j: nat, key: Key)
    requires i <= j < |trace|
  {
    key in trace[i].declarations ==> key in trace[j].declarations && Below(Effective(trace[j], key), Effective(trace[i], key))
  }

  lemma {:induction false} TightensUntilLoosened(trace: seq<Store>, steps: seq<Step>, i: nat, j: nat, key: Key)
    requires IsTrace(trace, steps) && i <= j < |trace|
    requires forall k :: i <= k < j ==> !LoosensAt(trace, steps, k, key)
    ensures NotLooser(trace, i, j, key)
    decreases j
  {
    if i < j && key in trace[i].declarations {
      TightensUntilLoosened(trace, steps, i, j - 1, key);
      StepLoosensIff(trace, steps, j - 1, key);
    }
  }

  /** The tightening law, exactly: bounds never increase over an interleaved run if and only if no step loosens them. */
  lemma NeverLooserIff(trace: seq<Store>, steps: seq<Step>, k: nat, key: Key)
    requires IsTrace(trace, steps) && k < |trace|
    ensures (forall i, j :: 0 <= i <= j <= k ==> NotLooser(trace, i, j, key))
       <==> forall j :: 0 <= j < k ==> !LoosensAt(trace, steps, j, key)
  {
    if forall j :: 0 <= j < k ==> !LoosensAt(trace, steps, j, key) {
      forall i, j | 0 <= i <= j <= k ensures NotLooser(trace, i, j, key) {
        TightensUntilLoosened(trace, steps, i, j, key);
      }
    } else {
      var j :| 0 <= j < k && LoosensAt(trace, steps, j, key);
      StepLoosensIff(trace, steps, j, key);
      assert !NotLooser(trace, j, j + 1, key);
    }
  }

  /** Step `k` writes an incident of this declaration. */
  predicate AddsIncident(trace: seq<Store>, steps: seq<Step>, k: nat, key: Key)
    requires |trace| == |steps| + 1 && k < |steps|
  {
    && Records(trace, steps, k, key)
    && Breached(trace[ReadIndex(steps[k], k)].declarations[key], steps[k].consumption)
    && !HasIncident(trace[k].incidents, IncidentId(steps[k].consumption))
  }

  lemma {:induction false} QuietTop(trace: seq<Store>, steps: seq<Step>, j: nat, k: nat, key: Key)
    requires IsTrace(trace, steps) && j <= k < |trace| && forall i :: j <= i < k ==> !AddsIncident(trace, steps, i, key)
    ensures Top(trace[k].incidents, key) == Top(trace[j].incidents, key)
    decreases k
  {
    if j < k {
      QuietTop(trace, steps, j, k - 1, key);
      TraceStep(trace, steps, k - 1);
      assert !AddsIncident(trace, steps, k - 1, key);
      var s, t := trace[k - 1], trace[k];
      if t.incidents != s.incidents {
        assert t.incidents == s.incidents + [t.incidents[|s.incidents|]];
        TopAppend(s.incidents, t.incidents[|s.incidents|], key);
      }
    }
  }

  /** A record that writes onto the same newest incident it read never loosens. */
  lemma SameTopNeverLoosens(read: Store, s: Store, c: Consumption, at: int)
    requires RecordRefusal(read, c).None? && BoundsPositive(read)
    requires c.operation.key in s.declarations && s.declarations[c.operation.key] == read.declarations[c.operation.key]
    requires Top(read.incidents, c.operation.key) == Top(s.incidents, c.operation.key)
    ensures !Loosens(read, s, c, at)
  {
    TightenedBelow(Effective(read, c.operation.key), Ratio(c));
  }

  /** What callers can arrange: bounds only go down if no incident is written between a breaching record's read and its write. */
  lemma UndisturbedNeverLoosens(trace: seq<Store>, steps: seq<Step>, k: nat, key: Key)
    requires IsTrace(trace, steps) && k < |trace|
    requires forall j, i :: (0 <= j < k && AddsIncident(trace, steps, j, key) && ReadIndex(steps[j], j) <= i < j) ==>
               !AddsIncident(trace, steps, i, key)
    ensures forall i, j :: 0 <= i <= j <= k ==> NotLooser(trace, i, j, key)
  {
    forall j | 0 <= j < k ensures !LoosensAt(trace, steps, j, key) {
      if LoosensAt(trace, steps, j, key) {
        var read := ReadIndex(steps[j], j);
        assert AddsIncident(trace, steps, j, key);
        QuietTop(trace, steps, read, j, key);
        RecordsRegistered(trace, steps, j, key);
        AlwaysPositive(trace, steps, read);
        SameTopNeverLoosens(trace[read], trace[j], steps[j].consumption, steps[j].at);
      }
    }
    NeverLooserIff(trace, steps, k, key);
  }

  /** Over every serial run, effective bounds only go down. */
  lemma EffectiveNeverIncreases(trace: seq<Store>, steps: seq<Step>, j: nat, k: nat, key: Key)
    requires IsTrace(trace, steps) && Serial(steps) && j <= k < |trace| && key in trace[j].declarations
    ensures key in trace[k].declarations && trace[k].declarations[key] == trace[j].declarations[key]
    ensures Below(Effective(trace[k], key), Effective(trace[j], key))
  {
    DeclarationsStay(trace, steps, j, k, key);
    assert forall i :: 0 <= i < |steps| ==> ReadIndex(steps[i], i) == i;
    UndisturbedNeverLoosens(trace, steps, k, key);
    assert NotLooser(trace, j, k, key);
  }

  // --- the laws do fail -------------------------------------------------------------------------

  const KEY: Key := ("d", 1)

  const SAMPLE: Declaration := Declaration("p", "c", ["x"], Bounds(10, 10, 10), 1, 100)

  const NOTHING: Store := Store(map[], [], [])

  function Use(id: string, run: string, slots: int, forecast: Option<int>): Consumption {
    Consumption(id, Operation(run, KEY, "p", "c", ["x"], 1, 0, 0, 1, 1), Bounds(slots, 0, 0), forecast, None, None)
  }

  function Registered(): (s: Store)
    ensures s.declarations.Keys == {KEY} && s.declarations[KEY] == SAMPLE && s.usages == [] && s.incidents == []
  {
    Store(map[KEY := SAMPLE], [], [])
  }

  /** Two callers, one declaration: the second record reads what the first one read. */
  function Race(a: Consumption, b: Consumption): seq<Step> {
    [DoRegister(KEY, SAMPLE), DoRecord(a, 1, 0), DoRecord(b, 1, 1)]
  }

  function RaceTrace(a: Consumption, b: Consumption): (trace: seq<Store>)
    requires RecordRefusal(Registered(), a).None? && RecordRefusal(Registered(), b).None?
  {
    var s := Registered();
    [NOTHING, s, Written(s, s, a, 0), Written(s, Written(s, s, a, 0), b, 1)]
  }

  lemma RaceIsTrace(a: Consumption, b: Consumption)
    requires RecordRefusal(Registered(), a).None? && RecordRefusal(Registered(), b).None?
    ensures IsTrace(RaceTrace(a, b), Race(a, b))
  {
    RegisterSample();
  }

  lemma RegisterSample()
    ensures Register(NOTHING, KEY, SAMPLE) == Ok(Registered())
  {
    assert NOTHING.declarations[KEY := SAMPLE] == map[KEY := SAMPLE];
  }

  lemma SampleRecords(s: Store, c: Consumption, id: string, run: string, slots: int, forecast: Option<int>)
    requires s.declarations == Registered().declarations && c == Use(id, run, slots, forecast) && run != ""
    requires Below(ONE, Effective(s, KEY)) && 0 < slots
    requires Below(Plus(Total(s.usages, run, KEY), c.used), Effective(s, KEY))
    ensures RecordRefusal(s, c).None?
  {
    assert c.operation.programs[0] == "x" && SAMPLE.programs[0] == "x";
    assert OperationRefusal(SAMPLE, Effective(s, KEY), c.operation).None?;
  }

  lemma RaceParts(a: Consumption, b: Consumption)
    requires RecordRefusal(Registered(), a).None? && RecordRefusal(Registered(), b).None?
    ensures |RaceTrace(a, b)| == |Race(a, b)| + 1 == 4
    ensures Race(a, b)[2] == DoRecord(b, 1, 1) && ReadIndex(Race(a, b)[2], 2) == 1
    ensures RaceTrace(a, b)[1] == Registered() && RaceTrace(a, b)[2] == Written(Registered(), Registered(), a, 0)
  {
  }

  lemma RaceOverruns(a: Consumption, b: Consumption)
    requires RecordRefusal(Registered(), a).None? && RecordRefusal(Registered(), b).None?
    requires a.id != b.id && a.operation == b.operation && a.operation.key == KEY && !Below(a.used, Room(Registered(), b))
    ensures |RaceTrace(a, b)| == |Race(a, b)| + 1 == 4 && Overruns(RaceTrace(a, b), Race(a, b), 2, a.operation.run, KEY)
  {
    RaceParts(a, b);
    OneUsage(Registered(), a, 0);
    assert !HasUsage(RaceTrace(a, b)[2].usages, b.id);
  }

  /** Two records of one run that read the same totals both commit, and the second overruns. */
  lemma StaleReadsOverrun(x: string, y: string, run: string)
    requires x != y && run != ""
    ensures var a, b := Use(x, run, 6, Some(6)), Use(y, run, 6, Some(6));
            && RecordRefusal(Registered(), a).None? && RecordRefusal(Registered(), b).None?
            && IsTrace(RaceTrace(a, b), Race(a, b)) && Overruns(RaceTrace(a, b), Race(a, b), 2, run, KEY)
  {
    SixSlots(x, run);
    SixSlots(y, run);
    RaceIsTrace(Use(x, run, 6, Some(6)), Use(y, run, 6, Some(6)));
    RaceOverruns(Use(x, run, 6, Some(6)), Use(y, run, 6, Some(6)));
  }

  lemma SixSlots(id: string, run: string)
    requires run != ""
    ensures var c := Use(id, run, 6, Some(6));
            RecordRefusal(Registered(), c).None? && Room(Registered(), c) == Bounds(4, 10, 10)
  {
    SampleRecords(Registered(), Use(id, run, 6, Some(6)), id, run, 6, Some(6));
  }

  lemma OneUsage(s: Store, c: Consumption, at: int)
    requires RecordRefusal(s, c).None? && s.usages == []
    ensures |Written(s, s, c, at).usages| == 1 && Written(s, s, c, at).usages[0].id == c.id
    ensures Total(Written(s, s, c, at).usages, c.operation.run, c.operation.key) == c.used
  {
    var t := Written(s, s, c, at);
    assert t.usages == [] + [t.usages[0]];
    TotalAppend([], t.usages[0], c.operation.run, c.operation.key);
  }

  lemma SampleRatio(id: string, run: string, slots: int)
    requires slots in {3, 5}
    ensures var c := Use(id, run, slots, Some(1));
            && Breached(SAMPLE, c) && Ratio(c) == slots as real
            && TightenedBounds(SAMPLE.bounds, Ratio(c)) == if slots == 5 then Bounds(2, 2, 2) else Bounds(3, 3, 3)
  {
    assert Share(slots, Some(1)) == slots as real && Share(0, None) == 0.0;
    assert Tightened(10, 5.0) == 2 && Tightened(10, 3.0) == 3;
  }

  lemma DistinctIncidents(a: Consumption, b: Consumption)
    requires a.id == "a" && b.id == "b"
    ensures IncidentId(a) != IncidentId(b)
  {
    assert IncidentId(a)[23] == 'a' && IncidentId(b)[23] == 'b';
  }

  /** After one breach of the sample the bounds are down to two. */
  lemma FirstBreach(at: int)
    ensures var s, a := Registered(), Use("a", "r", 5, Some(1));
            && RecordRefusal(s, a).None?
            && Effective(Written(s, s, a, at), KEY) == Bounds(2, 2, 2)
            && |Written(s, s, a, at).incidents| == 1 && Written(s, s, a, at).incidents[0].id == IncidentId(a)
            && Top(Written(s, s, a, at).incidents, KEY) == Some(Written(s, s, a, at).incidents[0])
            && Written(s, s, a, at).incidents[0].recordedAt == at
  {
    var s, a := Registered(), Use("a", "r", 5, Some(1));
    SampleRecords(s, a, "a", "r", 5, Some(1));
    SampleRatio("a", "r", 5);
    EffectiveAfterRecord(s, s, a, at, KEY);
    var t := Written(s, s, a, at);
    assert t.incidents == [] + [t.incidents[0]];
    TopAppend([], t.incidents[0], KEY);
  }

  lemma RaceLoosens(a: Consumption, b: Consumption)
    requires RecordRefusal(Registered(), a).None? && RecordRefusal(Registered(), b).None?
    requires b.operation.key == KEY && Loosens(Registered(), Written(Registered(), Registered(), a, 0), b, 1)
    ensures |RaceTrace(a, b)| == |Race(a, b)| + 1 == 4 && LoosensAt(RaceTrace(a, b), Race(a, b), 2, KEY)
  {
    RaceParts(a, b);
  }

  lemma SecondLoosens()
    ensures var s, a, b := Registered(), Use("a", "r", 5, Some(1)), Use("b", "r", 3, Some(1));
            && RecordRefusal(s, a).None? && RecordRefusal(s, b).None?
            && Loosens(s, Written(s, s, a, 0), b, 1)
  {
    var s, a, b := Registered(), Use("a", "r", 5, Some(1)), Use("b", "r", 3, Some(1));
    FirstBreach(0);
    SampleRecords(s, b, "b", "r", 3, Some(1));
    SampleRatio("b", "r", 3);
    DistinctIncidents(a, b);
    assert !HasIncident(Written(s, s, a, 0).incidents, IncidentId(b));
    assert RecordsNewest(s, Written(s, s, a, 0), b, 1);
  }

  /** A record that read the bounds before another one tightened them loosens them again. */
  lemma StaleReadLoosens()
    ensures var a, b := Use("a", "r", 5, Some(1)), Use("b", "r", 3, Some(1));
            && RecordRefusal(Registered(), a).None? && RecordRefusal(Registered(), b).None?
            && IsTrace(RaceTrace(a, b), Race(a, b)) && LoosensAt(RaceTrace(a, b), Race(a, b), 2, KEY)
  {
    var a, b := Use("a", "r", 5, Some(1)), Use("b", "r", 3, Some(1));
    SecondLoosens();
    RaceIsTrace(a, b);
    RaceLoosens(a, b);
  }

  /** Five slots scanned where one was declared, without a forecast: an incident that changes no bound. */
  lemma UnforecastBreachTightensNothing()
    ensures var s, c := Registered(), Use("a", "r", 5, None);
            && RecordRefusal(s, c).None? && RecordsNewest(s, s, c, 0)
            && Effective(Written(s, s, c, 0), KEY) == Effective(s, KEY)
  {
    var s, c := Registered(), Use("a", "r", 5, None);
    SampleRecords(s, c, "a", "r", 5, None);
    assert Breached(SAMPLE, c);
    BreachTightensIff(s, c, 0);
  }

  /** An overrun of an explicit forecast under a clock behind the last incident tightens nothing either. */
  lemma LateClockBreachTightensNothing()
    ensures var a, c := Use("a", "r", 5, Some(1)), Use("b", "q", 2, Some(0));
            && RecordRefusal(Registered(), a).None?
            && var s := Written(Registered(), Registered(), a, 1);
               && RecordRefusal(s, c).None? && Breached(SAMPLE, c) && OverranForecast(c)
               && Effective(Written(s, s, c, 0), KEY) == Effective(s, KEY)
  {
    var a, c := Use("a", "r", 5, Some(1)), Use("b", "q", 2, Some(0));
    FirstBreach(1);
    var s := Written(Registered(), Registered(), a, 1);
    OneUsageElsewhere(Registered(), a, 1, "q");
    SampleRecords(s, c, "b", "q", 2, Some(0));
    EffectiveAfterRecord(s, s, c, 0, KEY);
  }

  lemma OneUsageElsewhere(s: Store, c: Consumption, at: int, run: string)
    requires RecordRefusal(s, c).None? && s.usages == [] && run != c.operation.run
    ensures Total(Written(s, s, c, at).usages, run, c.operation.key) == ZERO
  {
    var t := Written(s, s, c, at);
    assert t.usages == [] + [t.usages[0]];
    TotalAppend([], t.usages[0], run, c.operation.key);
  }
}
