/**
 The collector's fencing protocol: leases draw tokens from one sequence, and partition and
 watermark writes are accepted only under a token at least as new as the stored one. Any number of
 leaders interleave; one step is one transaction.
 */
module Fencing {
  import opened Prelude
  import Watermark

  datatype PartitionState = Disabled | Starting | Syncing | Live | Degraded | GapDetected | Backfilling | Paused | Failed

  /** `LEGAL_PARTITION_TRANSITIONS`. */
  predicate Legal(from: PartitionState, to: PartitionState) {
    match from
    case Disabled => to == Starting
    case Starting => to in {Syncing, Paused, Failed}
    case Syncing => to in {Live, Degraded, GapDetected, Paused, Failed}
    case Live => to in {Degraded, GapDetected, Paused, Failed}
    case Degraded => to in {Syncing, GapDetected, Paused, Failed}
    case GapDetected => to in {Backfilling, Paused, Failed}
    case Backfilling => to in {Syncing, Degraded, Paused, Failed}
    case Paused => to in {Starting, Failed, Disabled}
    case Failed => to in {Starting, Disabled}
  }

  datatype Readiness = Readiness(connected: bool, decoderVerified: bool, finalitySatisfied: bool,
                                 checkpointContiguous: bool, capacityAvailable: bool, rightsVerified: bool)

  predicate Ready(checks: Readiness) {
    && checks.connected && checks.decoderVerified && checks.finalitySatisfied
    && checks.checkpointContiguous && checks.capacityAvailable && checks.rightsVerified
  }

  datatype Lease = Lease(holder: string, token: nat, expires: int, released: bool)

  datatype Partition = Partition(state: PartitionState, token: int)

  datatype Entry = Entry(partition: string, from: PartitionState, to: PartitionState, token: int)

  datatype Store = Store(sequence: nat, leases: map<string, Lease>, partitions: map<string, Partition>,
                         log: seq<Entry>, marks: map<string, Watermark.Mark>)

  datatype Refusal =
    | TtlRequired | LeaseHeld | UnknownPartition | StaleToken | IllegalTransition | NotReady | ConstraintViolated
    | WatermarkRefused(reason: Watermark.Refusal)

  datatype Step =
    | Acquire(shard: string, holder: string, now: int, ttl: int, drawn: nat)
    | Release(shard: string, token: int)
    | Move(partition: string, to: PartitionState, token: int, readiness: Option<Readiness>)
    | AdvanceMark(call: Watermark.Call)

  /** `acquire`. Other draws from the shared sequence are `drawn`. */
  function AcquireLease(s: Store, shard: string, holder: string, now: int, ttl: int, drawn: nat): Result<Store, Refusal> {
    if ttl <= 0 then Err(TtlRequired)
    else if shard in s.leases && !s.leases[shard].released && s.leases[shard].expires > now && s.leases[shard].holder != holder then
      Err(LeaseHeld)
    else if holder == "" then Err(ConstraintViolated)
    else
      var token := s.sequence + drawn + 1;
      Ok(s.(sequence := token, leases := s.leases[shard := Lease(holder, token, now + ttl, false)]))
  }

  /** `transition`: the partition row and its log entry, in one transaction. */
  function MovePartition(s: Store, partition: string, to: PartitionState, token: int, readiness: Option<Readiness>)
    : Result<Store, Refusal>
  {
    if partition !in s.partitions then Err(UnknownPartition)
    else
      var row := s.partitions[partition];
      if token < row.token then Err(StaleToken)
      else if !Legal(row.state, to) then Err(IllegalTransition)
      else if to == Live && (readiness.None? || !Ready(readiness.value)) then Err(NotReady)
      else Ok(s.(partitions := s.partitions[partition := Partition(to, token)],
                 log := s.log + [Entry(partition, row.state, to, token)]))
  }

  function Outcome(s: Store, step: Step): Result<Store, Refusal> {
    match step
    case Acquire(shard, holder, now, ttl, drawn) => AcquireLease(s, shard, holder, now, ttl, drawn)
    case Release(shard, token) =>
      if shard in s.leases && s.leases[shard].token == token && !s.leases[shard].released then
        Ok(s.(leases := s.leases[shard := s.leases[shard].(released := true)]))
      else Err(StaleToken)
    case Move(partition, to, token, readiness) => MovePartition(s, partition, to, token, readiness)
    case AdvanceMark(call) =>
      var marks := Watermark.Advanced(s.marks, call.key, call.current, call.evidence, call.token);
      if marks.Err? then Err(WatermarkRefused(marks.error)) else Ok(s.(marks := marks.value))
  }

  function Next(s: Store, step: Step): Store {
    var outcome := Outcome(s, step);
    if outcome.Ok? then outcome.value else s
  }

  /** A run of steps by any number of leaders, from any store. */
  predicate IsTrace(trace: seq<Store>, steps: seq<Step>) {
    && |trace| == |steps| + 1
    && forall k {:trigger steps[k]} :: 0 <= k < |steps| ==> trace[k + 1] == Next(trace[k], steps[k])
  }

  // --- monotonicity -----------------------------------------------------------------------------

  predicate NoRegression(s: Store, t: Store) {
    && s.sequence <= t.sequence
    && (forall p :: p in s.partitions ==> p in t.partitions && s.partitions[p].token <= t.partitions[p].token)
    && (forall k :: k in s.marks ==> k in t.marks && Watermark.NotBelow(t.marks[k], s.marks[k]))
    && s.log <= t.log
  }

  lemma StepNeverRegresses(s: Store, step: Step)
    ensures NoRegression(s, Next(s, step))
  {
  }

  lemma {:induction false} NothingRegresses(trace: seq<Store>, steps: seq<Step>, j: nat, k: nat)
    requires IsTrace(trace, steps) && j <= k < |trace|
    ensures NoRegression(trace[j], trace[k])
    decreases k
  {
    if j < k {
      NothingRegresses(trace, steps, j, k - 1);
      var step := steps[k - 1];
      StepNeverRegresses(trace[k - 1], step);
    }
  }

  // --- fencing ----------------------------------------------------------------------------------

  predicate Accepted(trace: seq<Store>, steps: seq<Step>, k: nat)
    requires k < |steps| < |trace|
  {
    Outcome(trace[k], steps[k]).Ok?
  }

  /** The token step `k` was given. */
  function Granted(trace: seq<Store>, steps: seq<Step>, k: nat): (token: nat)
    requires IsTrace(trace, steps) && k < |steps| && steps[k].Acquire? && Accepted(trace, steps, k)
  {
    assert steps[k].Acquire?;
    trace[k + 1].leases[steps[k].shard].token
  }

  /** Tokens strictly increase over all acquisitions, whoever acquires whichever shard. */
  lemma TokensIncrease(trace: seq<Store>, steps: seq<Step>, j: nat, k: nat)
    requires IsTrace(trace, steps) && j < k < |steps|
    requires steps[j].Acquire? && steps[k].Acquire? && Accepted(trace, steps, j) && Accepted(trace, steps, k)
    ensures Granted(trace, steps, j) < Granted(trace, steps, k)
  {
    NothingRegresses(trace, steps, j + 1, k);
  }

  /** A lease changes hands only after it was released or expired at the acquirer's clock. */
  lemma TakeoverNeedsExpiry(trace: seq<Store>, steps: seq<Step>, k: nat)
    requires IsTrace(trace, steps) && k < |steps| && steps[k].Acquire? && Accepted(trace, steps, k)
    requires steps[k].shard in trace[k].leases && trace[k].leases[steps[k].shard].holder != steps[k].holder
    ensures trace[k].leases[steps[k].shard].released || trace[k].leases[steps[k].shard].expires <= steps[k].now
  {
  }

  /** A lease is granted exactly to a named holder, for a positive time, when it is free, run out, or the holder's own. */
  lemma LeaseGrantedIff(s: Store, shard: string, holder: string, now: int, ttl: int, drawn: nat)
    ensures AcquireLease(s, shard, holder, now, ttl, drawn).Ok? <==>
            && ttl > 0 && holder != ""
            && (shard in s.leases ==>
                  var row := s.leases[shard]; row.released || row.expires <= now || row.holder == holder)
    ensures AcquireLease(s, shard, holder, now, ttl, drawn).Ok? ==>
              var token := s.sequence + drawn + 1;
              AcquireLease(s, shard, holder, now, ttl, drawn).value
              == Store(token, s.leases[shard := Lease(holder, token, now + ttl, false)], s.partitions, s.log, s.marks)
  {
  }

  /** No step from `j` up to `k` is granted the shard's lease or gives it back. */
  predicate Undisturbed(trace: seq<Store>, steps: seq<Step>, shard: string, j: nat, k: nat)
    requires |steps| < |trace| && k <= |steps|
  {
    forall i :: j <= i < k && (steps[i].Acquire? || steps[i].Release?) && steps[i].shard == shard ==> !Accepted(trace, steps, i)
  }

  lemma {:induction false} LeaseStands(trace: seq<Store>, steps: seq<Step>, shard: string, j: nat, k: nat)
    requires IsTrace(trace, steps) && j <= k <= |steps| && shard in trace[j].leases && Undisturbed(trace, steps, shard, j, k)
    ensures shard in trace[k].leases && trace[k].leases[shard] == trace[j].leases[shard]
    decreases k
  {
    if j < k {
      LeaseStands(trace, steps, shard, j, k - 1);
      var step := steps[k - 1];
      assert trace[k] == Next(trace[k - 1], step);
      assert (step.Acquire? || step.Release?) && step.shard == shard ==> !Accepted(trace, steps, k - 1);
    }
  }

  /** After a grant nobody else is granted the shard until the time is up, and from then on anybody is. */
  lemma TakeoverIff(trace: seq<Store>, steps: seq<Step>, j: nat, k: nat)
    requires IsTrace(trace, steps) && j < k < |steps| && steps[j].Acquire? && steps[k].Acquire?
    requires Accepted(trace, steps, j) && steps[k].shard == steps[j].shard && Undisturbed(trace, steps, steps[j].shard, j + 1, k)
    ensures Accepted(trace, steps, k) <==>
            && steps[k].ttl > 0 && steps[k].holder != ""
            && (steps[k].holder == steps[j].holder || steps[k].now >= steps[j].now + steps[j].ttl)
  {
    var a, b := steps[j], steps[k];
    assert trace[j + 1] == Next(trace[j], a);
    LeaseGrantedIff(trace[j], a.shard, a.holder, a.now, a.ttl, a.drawn);
    LeaseStands(trace, steps, a.shard, j + 1, k);
    LeaseGrantedIff(trace[k], b.shard, b.holder, b.now, b.ttl, b.drawn);
  }

  /** Giving a lease back needs its current token, and works once. */
  lemma ReleasedIff(s: Store, shard: string, token: int)
    ensures Outcome(s, Release(shard, token)).Ok? <==> shard in s.leases && s.leases[shard].token == token && !s.leases[shard].released
    ensures Outcome(s, Release(shard, token)).Ok? ==>
              Outcome(s, Release(shard, token)).value
              == s.(leases := s.leases[shard := Lease(s.leases[shard].holder, token, s.leases[shard].expires, true)])
  {
  }

  /** The states a partition may come from, state by state. */
  function EnteredFrom(to: PartitionState): set<PartitionState> {
    match to
    case Disabled => {Paused, Failed}
    case Starting => {Disabled, Paused, Failed}
    case Syncing => {Starting, Degraded, Backfilling}
    case Live => {Syncing}
    case Degraded => {Syncing, Live, Backfilling}
    case GapDetected => {Syncing, Live, Degraded}
    case Backfilling => {GapDetected}
    case Paused => {Starting, Syncing, Live, Degraded, GapDetected, Backfilling}
    case Failed => {Starting, Syncing, Live, Degraded, GapDetected, Backfilling, Paused}
  }

  /** A move is accepted exactly along a known edge, under a token not older than the stored one, and into LIVE only when all six checks hold. */
  lemma MoveAcceptedIff(s: Store, partition: string, to: PartitionState, token: int, readiness: Option<Readiness>)
    ensures MovePartition(s, partition, to, token, readiness).Ok? <==>
            && partition in s.partitions && s.partitions[partition].token <= token
            && s.partitions[partition].state in EnteredFrom(to)
            && (to == Live ==> readiness == Some(Readiness(true, true, true, true, true, true)))
    ensures MovePartition(s, partition, to, token, readiness).Ok? ==>
              MovePartition(s, partition, to, token, readiness).value
              == Store(s.sequence, s.leases, s.partitions[partition := Partition(to, token)],
                       s.log + [Entry(partition, s.partitions[partition].state, to, token)], s.marks)
  {
  }

  /** Once a partition write with a token is accepted, no later write to it with a smaller token is. */
  lemma PartitionFence(trace: seq<Store>, steps: seq<Step>, j: nat, k: nat)
    requires IsTrace(trace, steps) && j < k < |steps| && steps[j].Move? && steps[k].Move?
    requires steps[j].partition == steps[k].partition && Accepted(trace, steps, j) && Accepted(trace, steps, k)
    ensures steps[j].token <= steps[k].token
  {
    NothingRegresses(trace, steps, j + 1, k);
  }

  /** Likewise for watermark writes; under the same token the position never goes down. */
  lemma WatermarkFence(trace: seq<Store>, steps: seq<Step>, j: nat, k: nat)
    requires IsTrace(trace, steps) && j < k < |steps| && steps[j].AdvanceMark? && steps[k].AdvanceMark?
    requires steps[j].call.key == steps[k].call.key && Accepted(trace, steps, j) && Accepted(trace, steps, k)
    ensures steps[j].call.token <= steps[k].call.token
    ensures var key := steps[j].call.key;
            key in trace[j + 1].marks && key in trace[k + 1].marks
            && Watermark.NotBelow(trace[k + 1].marks[key], trace[j + 1].marks[key])
  {
    NothingRegresses(trace, steps, j + 1, k + 1);
    assert trace[j + 1] == Next(trace[j], steps[j]) && trace[k + 1] == Next(trace[k], steps[k]);
  }

  /** A deposed leader's write is refused from the successor's first accepted write on. */
  lemma DeposedLeaderIsFenced(trace: seq<Store>, steps: seq<Step>, first: nat, second: nat, write: nat, late: nat)
    requires IsTrace(trace, steps) && first < second < |steps| && write < late < |steps|
    requires steps[first].Acquire? && steps[second].Acquire? && Accepted(trace, steps, first) && Accepted(trace, steps, second)
    requires steps[write].Move? && steps[late].Move? && steps[write].partition == steps[late].partition
    requires Accepted(trace, steps, write) && steps[write].token == Granted(trace, steps, second)
    requires steps[late].token == Granted(trace, steps, first)
    ensures Outcome(trace[late], steps[late]) == Err(StaleToken)
  {
    TokensIncrease(trace, steps, first, second);
    NothingRegresses(trace, steps, write + 1, late);
    assert trace[write + 1] == Next(trace[write], steps[write]);
  }

  // --- the partition log ------------------------------------------------------------------------

  function EntriesOf(log: seq<Entry>, partition: string): seq<Entry> {
    if log == [] then []
    else
      var last := log[|log| - 1];
      EntriesOf(log[..|log| - 1], partition) + if last.partition == partition then [last] else []
  }

  /** The entries lead from one state to the other without a gap, legally and under nondecreasing tokens. */
  predicate Chain(from: Partition, entries: seq<Entry>, to: Partition) {
    if entries == [] then from == to
    else
      && entries[0].from == from.state && from.token <= entries[0].token
      && entries[|entries| - 1].to == to.state && entries[|entries| - 1].token == to.token
      && (forall i :: 0 <= i < |entries| ==> Legal(entries[i].from, entries[i].to))
      && (forall i :: 0 <= i < |entries| - 1 ==>
            entries[i].to == entries[i + 1].from && entries[i].token <= entries[i + 1].token)
  }

  lemma ChainExtends(from: Partition, entries: seq<Entry>, to: Partition, entry: Entry)
    requires Chain(from, entries, to) && entry.from == to.state && to.token <= entry.token && Legal(entry.from, entry.to)
    ensures Chain(from, entries + [entry], Partition(entry.to, entry.token))
  {
  }

  /** Each partition's log leads gap-free from its first state to its current one. */
  lemma {:induction false} LogIsChain(trace: seq<Store>, steps: seq<Step>, k: nat, partition: string)
    requires IsTrace(trace, steps) && k < |trace| && trace[0].log == [] && partition in trace[0].partitions
    ensures partition in trace[k].partitions
    ensures Chain(trace[0].partitions[partition], EntriesOf(trace[k].log, partition), trace[k].partitions[partition])
  {
    if k > 0 {
      LogIsChain(trace, steps, k - 1, partition);
      var step := steps[k - 1];
      StepKeepsChain(trace[0].partitions[partition], trace[k - 1], step, partition);
    }
  }

  lemma StepKeepsChain(from: Partition, s: Store, step: Step, partition: string)
    requires partition in s.partitions && Chain(from, EntriesOf(s.log, partition), s.partitions[partition])
    ensures partition in Next(s, step).partitions
    ensures Chain(from, EntriesOf(Next(s, step).log, partition), Next(s, step).partitions[partition])
  {
    if step.Move? && Outcome(s, step).Ok? {
      var entry := Next(s, step).log[|s.log|];
      EntriesAppend(s.log, entry, partition);
      if step.partition == partition {
        ChainExtends(from, EntriesOf(s.log, partition), s.partitions[partition], entry);
      }
    }
  }

  lemma EntriesAppend(log: seq<Entry>, entry: Entry, partition: string)
    ensures EntriesOf(log + [entry], partition) == EntriesOf(log, partition) + if entry.partition == partition then [entry] else []
  {
    assert (log + [entry])[..|log|] == log;
  }

  /** A partition is never LIVE without all six readiness checks at the step that made it so. */
  lemma LiveMeansReady(trace: seq<Store>, steps: seq<Step>, k: nat, partition: string)
    requires IsTrace(trace, steps) && k < |steps| && partition in trace[k].partitions
    requires trace[k].partitions[partition].state != Live
    requires partition in trace[k + 1].partitions && trace[k + 1].partitions[partition].state == Live
    ensures steps[k].Move? && steps[k].partition == partition && steps[k].readiness.Some? && Ready(steps[k].readiness.value)
    ensures trace[k].partitions[partition].state == Syncing
  {
  }

  // --- recovery from a gap ----------------------------------------------------------------------

  /** Successive states: each equal to the one before or a legal transition of it. */
  predicate Path(states: seq<PartitionState>) {
    forall i :: 0 <= i < |states| - 1 ==> Moves(states, i)
  }

  predicate Moves(states: seq<PartitionState>, i: int)
    requires 0 <= i < |states| - 1
  {
    states[i] == states[i + 1] || Legal(states[i], states[i + 1])
  }

  const STUCK: set<PartitionState> := {GapDetected, Paused, Failed, Disabled}

  /** From a gap, a path that is not still stuck went through BACKFILLING or STARTING first. */
  lemma FirstUnstuck(states: seq<PartitionState>) returns (i: nat)
    requires Path(states) && |states| > 0 && states[0] in STUCK && states[|states| - 1] !in STUCK
    ensures 0 < i < |states| && states[i] in {Backfilling, Starting} && forall j :: 0 <= j < i ==> states[j] in STUCK
  {
    i := 0;
    while states[i] in STUCK
      invariant 0 <= i < |states|
      invariant forall j :: 0 <= j < i ==> states[j] in STUCK
      invariant i > 0 && states[i] !in STUCK ==> states[i] in {Backfilling, Starting}
      decreases |states| - i
    {
      assert i < |states| - 1 && Moves(states, i);
      i := i + 1;
    }
  }

  /** LIVE is entered from SYNCING only. */
  lemma {:induction false} EntersThroughSync(states: seq<PartitionState>) returns (j: nat)
    requires Path(states) && |states| > 0 && states[0] != Live && states[|states| - 1] == Live
    ensures j < |states| - 1 && states[j] == Syncing
    decreases |states|
  {
    var n := |states| - 1;
    j := n - 1;
    assert Moves(states, j);
    if states[j] == Live {
      forall i | 0 <= i < n - 1 ensures Moves(states[..n], i) {
        assert Moves(states, i);
      }
      j := EntersThroughSync(states[..n]);
    }
  }

  /** Every path from a gap to LIVE passes BACKFILLING or STARTING and then SYNCING. */
  lemma PathRecovers(states: seq<PartitionState>) returns (i: nat, j: nat)
    requires Path(states) && |states| > 0 && states[0] == GapDetected && states[|states| - 1] == Live
    ensures 0 < i < j < |states| - 1 && states[i] in {Backfilling, Starting} && states[j] == Syncing
  {
    i := FirstUnstuck(states);
    j := EntersThroughSync(states);
  }

  function StatesOf(trace: seq<Store>, partition: string, from: nat, to: nat): (states: seq<PartitionState>)
    requires from <= to < |trace| && forall k :: from <= k <= to ==> partition in trace[k].partitions
    ensures |states| == to - from + 1 && forall i :: 0 <= i < |states| ==> states[i] == trace[from + i].partitions[partition].state
  {
    seq(to - from + 1, i requires 0 <= i <= to - from => trace[from + i].partitions[partition].state)
  }

  lemma MovesLegally(s: Store, step: Step, partition: string)
    requires partition in s.partitions
    ensures partition in Next(s, step).partitions
    ensures var from, to := s.partitions[partition].state, Next(s, step).partitions[partition].state;
            from == to || Legal(from, to)
  {
  }

  lemma StaysRegistered(trace: seq<Store>, steps: seq<Step>, partition: string, from: nat, to: nat)
    requires IsTrace(trace, steps) && from <= to < |trace| && partition in trace[from].partitions
    ensures forall k :: from <= k <= to ==> partition in trace[k].partitions
  {
    forall k | from <= k <= to ensures partition in trace[k].partitions {
      NothingRegresses(trace, steps, from, k);
    }
  }

  lemma TraceIsPath(trace: seq<Store>, steps: seq<Step>, partition: string, from: nat, to: nat)
    requires IsTrace(trace, steps) && from <= to < |trace| && forall k :: from <= k <= to ==> partition in trace[k].partitions
    ensures Path(StatesOf(trace, partition, from, to))
  {
    var states := StatesOf(trace, partition, from, to);
    forall i | 0 <= i < |states| - 1 ensures Moves(states, i) {
      var k, step := from + i, steps[from + i];
      assert trace[k + 1] == Next(trace[k], step);
      MovesLegally(trace[k], step, partition);
      assert states[i + 1] == trace[from + (i + 1)].partitions[partition].state;
    }
  }

  /**
   Between a moment with a detected gap and a later LIVE moment, the partition was BACKFILLING or
   STARTING and after that SYNCING, in every interleaving of leaders.
   */
  lemma GapRecoversThroughSync(trace: seq<Store>, steps: seq<Step>, partition: string, gap: nat, live: nat) returns (mend: nat, sync: nat)
    requires IsTrace(trace, steps) && gap <= live < |trace| && partition in trace[gap].partitions && partition in trace[live].partitions
    requires trace[gap].partitions[partition].state == GapDetected && trace[live].partitions[partition].state == Live
    ensures gap < mend < sync < live && partition in trace[mend].partitions && partition in trace[sync].partitions
    ensures trace[mend].partitions[partition].state in {Backfilling, Starting}
    ensures trace[sync].partitions[partition].state == Syncing
  {
    StaysRegistered(trace, steps, partition, gap, live);
    var states := StatesOf(trace, partition, gap, live);
    TraceIsPath(trace, steps, partition, gap, live);
    var i, j := PathRecovers(states);
    mend, sync := gap + i, gap + j;
  }

  // --- the running services ---------------------------------------------------------------------

  class CollectorStore {
    var sequence: nat
    var leases: map<string, Lease>
    var partitions: map<string, Partition>
    var log: seq<Entry>
    var marks: map<string, Watermark.Mark>

    function Contents(): Store
      reads this
    {
      Store(sequence, leases, partitions, log, marks)
    }

    constructor (initial: map<string, Partition>)
      ensures Contents() == Store(0, map[], initial, [], map[])
    {
      sequence, leases, partitions, log, marks := 0, map[], initial, [], map[];
    }

    method NextToken(drawn: nat) returns (token: nat)
      modifies this`sequence
      ensures token == sequence == old(sequence) + drawn + 1
    {
      sequence := sequence + drawn + 1;
      token := sequence;
    }

    /** `CollectorLeaderLease.acquire`. */
    method AcquireFor(shard: string, holder: string, now: int, ttl: int, drawn: nat) returns (r: Result<Lease, Refusal>)
      modifies this
      ensures match AcquireLease(old(Contents()), shard, holder, now, ttl, drawn)
              case Ok(after) => Contents() == after && r == Ok(after.leases[shard]) && r.value.token > old(sequence)
              case Err(refusal) => Contents() == old(Contents()) && r == Err(refusal)
    {
      if ttl <= 0 { return Err(TtlRequired); }
      if shard in leases {
        var row := leases[shard];
        if !row.released && row.expires > now && row.holder != holder { return Err(LeaseHeld); }
      }
      if holder == "" { return Err(ConstraintViolated); }
      var token := NextToken(drawn);
      leases := leases[shard := Lease(holder, token, now + ttl, false)];
      r := Ok(leases[shard]);
    }

    /** `PartitionStateMachine.transition`. */
    method Transition(partition: string, to: PartitionState, token: int, readiness: Option<Readiness>) returns (r: Option<Refusal>)
      modifies this
      ensures match MovePartition(old(Contents()), partition, to, token, readiness)
              case Ok(after) => Contents() == after && r.None?
              case Err(refusal) => Contents() == old(Contents()) && r == Some(refusal)
    {
      if partition !in partitions { return Some(UnknownPartition); }
      var row := partitions[partition];
      if token < row.token { return Some(StaleToken); }
      if !Legal(row.state, to) { return Some(IllegalTransition); }
      if to == Live {
        var checks := if readiness.Some? then readiness.value else Readiness(false, false, false, false, false, false);
        if !Ready(checks) { return Some(NotReady); }
      }
      partitions := partitions[partition := Partition(to, token)];
      log := log + [Entry(partition, row.state, to, token)];
      r := None;
    }
  }
}
