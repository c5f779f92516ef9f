/** Contiguous watermark advance over positional evidence. */
module Watermark {
  import opened Prelude
  import opened Texts
  import opened ShadowSafe

  datatype Evidence = Evidence(position: int, proof: string)

  datatype Refusal = ProofRequired | NonContiguous | StaleToken | ConstraintViolated

  predicate At(evidence: seq<Evidence>, p: int) {
    exists i :: 0 <= i < |evidence| && evidence[i].position == p
  }

  /** Every position after `current` up to `n` is evidenced. */
  ghost predicate Covers(evidence: seq<Evidence>, current: int, n: int) {
    current <= n && forall p :: current < p <= n ==> At(evidence, p)
  }

  /** `n` is the greatest position reached without a hole. */
  ghost predicate Frontier(evidence: seq<Evidence>, current: int, n: int) {
    Covers(evidence, current, n) && forall m :: Covers(evidence, current, m) ==> m <= n
  }

  predicate Ascending(evidence: seq<Evidence>) {
    forall i, j :: 0 <= i < j < |evidence| ==> evidence[i].position <= evidence[j].position
  }

  /** The walk over sorted evidence. */
  function Walk(sorted: seq<Evidence>, next: int): Result<int, Refusal> {
    if sorted == [] then Ok(next)
    else if sorted[0].proof == "" then Err(ProofRequired)
    else if sorted[0].position == next + 1 then Walk(sorted[1..], next + 1)
    else if sorted[0].position > next + 1 then Ok(next)
    else Walk(sorted[1..], next)
  }

  lemma HoleBounds(evidence: seq<Evidence>, current: int, n: int)
    requires Covers(evidence, current, n) && !At(evidence, n + 1)
    ensures Frontier(evidence, current, n)
  {
    forall m | Covers(evidence, current, m) ensures m <= n {
      assert m > n ==> At(evidence, n + 1);
    }
  }

  /** No evidence beyond the frontier touches it. */
  lemma FrontierHole(evidence: seq<Evidence>, current: int, n: int)
    requires Frontier(evidence, current, n)
    ensures !At(evidence, n + 1)
  {
    assert At(evidence, n + 1) ==> Covers(evidence, current, n + 1);
  }

  lemma FrontierStep(evidence: seq<Evidence>, current: int, n: int)
    requires |evidence| > 0 && Ascending(evidence)
    requires evidence[0].position <= current ==> Frontier(evidence[1..], current, n)
    requires evidence[0].position == current + 1 ==> Frontier(evidence[1..], current + 1, n)
    requires evidence[0].position > current + 1 ==> n == current
    ensures Frontier(evidence, current, n)
  {
    var head, rest := evidence[0], evidence[1..];
    assert forall p :: At(rest, p) ==> At(evidence, p) by {
      forall p | At(rest, p) ensures At(evidence, p) {
        var i :| 0 <= i < |rest| && rest[i].position == p;
        assert evidence[i + 1].position == p;
      }
    }
    assert forall p :: At(evidence, p) && p != head.position ==> At(rest, p) by {
      forall p | At(evidence, p) && p != head.position ensures At(rest, p) {
        var i :| 0 <= i < |evidence| && evidence[i].position == p;
        assert rest[i - 1].position == p;
      }
    }
    assert At(evidence, head.position);
    if head.position <= current + 1 {
      FrontierHole(rest, if head.position == current + 1 then current + 1 else current, n);
    }
    HoleBounds(evidence, current, n);
  }

  /** Whenever the walk returns, it returns the frontier. */
  lemma {:induction false} WalkFindsFrontier(sorted: seq<Evidence>, current: int)
    requires Ascending(sorted) && Walk(sorted, current).Ok?
    ensures Frontier(sorted, current, Walk(sorted, current).value)
    decreases |sorted|
  {
    if sorted == [] {
      HoleBounds(sorted, current, current);
    } else {
      if sorted[0].position == current + 1 {
        WalkFindsFrontier(sorted[1..], current + 1);
      } else if sorted[0].position <= current {
        WalkFindsFrontier(sorted[1..], current);
      }
      FrontierStep(sorted, current, Walk(sorted, current).value);
    }
  }

  /** The item the walk looks at `i`-th: everything before it is at most one beyond the frontier. */
  predicate Reaches(sorted: seq<Evidence>, n: int, i: int) {
    0 <= i < |sorted| && forall j :: 0 <= j < i ==> sorted[j].position <= n
  }

  /** The walk refuses exactly when an item without proof lies within the frontier or is the first beyond it. */
  lemma {:induction false} WalkRefusesIff(sorted: seq<Evidence>, current: int, n: int)
    requires Ascending(sorted) && Frontier(sorted, current, n)
    ensures Walk(sorted, current).Err? <==> exists i :: Reaches(sorted, n, i) && sorted[i].proof == ""
    decreases |sorted|
  {
    if sorted != [] {
      var head, rest := sorted[0], sorted[1..];
      if head.proof == "" {
        assert Reaches(sorted, n, 0);
      } else if head.position > current + 1 {
        FrontierStep(sorted, current, current);
        assert n == current;
      } else {
        FrontierOfRest(sorted, current, n);
        WalkRefusesIff(rest, if head.position == current + 1 then current + 1 else current, n);
        if i :| Reaches(sorted, n, i) && sorted[i].proof == "" {
          assert Reaches(rest, n, i - 1) && rest[i - 1].proof == "";
        }
        if i :| Reaches(rest, n, i) && rest[i].proof == "" {
          assert forall j :: 0 <= j < i ==> sorted[j + 1] == rest[j];
          assert Reaches(sorted, n, i + 1);
        }
      }
    }
  }

  lemma FrontierOfRest(sorted: seq<Evidence>, current: int, n: int)
    requires |sorted| > 0 && Ascending(sorted) && Frontier(sorted, current, n) && sorted[0].position <= current + 1
    ensures sorted[0].position <= n
    ensures Frontier(sorted[1..], if sorted[0].position == current + 1 then current + 1 else current, n)
  {
    var head, rest := sorted[0], sorted[1..];
    var start := if head.position == current + 1 then current + 1 else current;
    FrontierHole(sorted, current, n);
    assert At(sorted, head.position);
    assert forall p :: start < p && At(sorted, p) ==> At(rest, p) by {
      forall p | start < p && At(sorted, p) ensures At(rest, p) {
        var i :| 0 <= i < |sorted| && sorted[i].position == p;
        assert rest[i - 1].position == p;
      }
    }
    assert forall i :: 0 <= i < |rest| ==> rest[i] == sorted[i + 1];
    assert !At(rest, n + 1);
    HoleBounds(rest, start, n);
  }

  predicate ProvenAt(evidence: seq<Evidence>, p: int) {
    exists i :: 0 <= i < |evidence| && evidence[i].position == p && evidence[i].proof != ""
  }

  /** Every position the walk gains rests on an item that carries its proof. */
  lemma {:induction false} WalkUsesProofs(sorted: seq<Evidence>, current: int, p: int)
    requires Walk(sorted, current).Ok? && current < p <= Walk(sorted, current).value
    ensures ProvenAt(sorted, p)
    decreases |sorted|
  {
    if sorted[0].position != p || sorted[0].position != current + 1 {
      WalkUsesProofs(sorted[1..], if sorted[0].position == current + 1 then current + 1 else current, p);
      var i :| 0 <= i < |sorted[1..]| && sorted[1..][i].position == p && sorted[1..][i].proof != "";
      assert sorted[i + 1].position == p && sorted[i + 1].proof != "";
    }
  }

  function ByPosition(p: Evidence, c: Evidence): bool { p.position > c.position }

  lemma SortedEvidence(evidence: seq<Evidence>)
    ensures Ascending(Sort(evidence, ByPosition))
    ensures forall p :: At(Sort(evidence, ByPosition), p) <==> At(evidence, p)
    ensures multiset(Sort(evidence, ByPosition)) == multiset(evidence)
  {
    assert IsOrder(ByPosition);
    SortIsStable(evidence, ByPosition);
    SamePositions(Sort(evidence, ByPosition), evidence);
    SamePositions(evidence, Sort(evidence, ByPosition));
  }

  lemma SamePositions(a: seq<Evidence>, b: seq<Evidence>)
    requires multiset(a) == multiset(b)
    ensures forall p :: At(a, p) ==> At(b, p)
  {
    forall p | At(a, p) ensures At(b, p) {
      var i :| 0 <= i < |a| && a[i].position == p;
      assert a[i] in multiset(b);
      assert a[i] in b;
    }
  }

  lemma FrontierTransfers(a: seq<Evidence>, b: seq<Evidence>, current: int, n: int)
    requires Frontier(a, current, n) && forall p :: At(a, p) <==> At(b, p)
    ensures Frontier(b, current, n)
  {
    FrontierHole(a, current, n);
    HoleBounds(b, current, n);
  }

  /** What `advance` computes before it writes. */
  function Target(evidence: seq<Evidence>, current: int): Result<int, Refusal> {
    var next := Walk(Sort(evidence, ByPosition), current);
    if next.Err? then next
    else if next.value == current && exists i :: 0 <= i < |evidence| && evidence[i].position > current + 1 then Err(NonContiguous)
    else next
  }

  /** The target is the frontier of the evidence, in whatever order and with whatever repetitions it came. */
  lemma TargetIsFrontier(evidence: seq<Evidence>, current: int)
    requires Target(evidence, current).Ok?
    ensures Frontier(evidence, current, Target(evidence, current).value)
    ensures forall p :: current < p <= Target(evidence, current).value ==> ProvenAt(evidence, p)
  {
    var sorted := Sort(evidence, ByPosition);
    SortedEvidence(evidence);
    WalkFindsFrontier(sorted, current);
    FrontierTransfers(sorted, evidence, current, Target(evidence, current).value);
    forall p | current < p <= Target(evidence, current).value ensures ProvenAt(evidence, p) {
      WalkUsesProofs(sorted, current, p);
      var i :| 0 <= i < |sorted| && sorted[i].position == p && sorted[i].proof != "";
      assert sorted[i] in multiset(evidence);
      assert sorted[i] in evidence;
    }
  }

  /** With proofs everywhere, advance is refused exactly when nothing is gained although later evidence exists. */
  lemma ProvenEvidenceRefusedIff(evidence: seq<Evidence>, current: int, n: int)
    requires forall i :: 0 <= i < |evidence| ==> evidence[i].proof != ""
    requires Frontier(evidence, current, n)
    ensures Target(evidence, current) ==
            if n == current && exists i :: 0 <= i < |evidence| && evidence[i].position > current + 1 then Err(NonContiguous) else Ok(n)
  {
    var sorted := Sort(evidence, ByPosition);
    SortedEvidence(evidence);
    FrontierTransfers(evidence, sorted, current, n);
    forall i | 0 <= i < |sorted| ensures sorted[i].proof != "" {
      assert sorted[i] in multiset(evidence);
      assert sorted[i] in evidence;
    }
    WalkRefusesIff(sorted, current, n);
    WalkFindsFrontier(sorted, current);
  }

  /** Proven evidence with the same positions gives the same answer. */
  lemma TargetForgetsOrder(a: seq<Evidence>, b: seq<Evidence>, current: int, n: int)
    requires forall i :: 0 <= i < |a| ==> a[i].proof != ""
    requires forall i :: 0 <= i < |b| ==> b[i].proof != ""
    requires Frontier(a, current, n) && forall p :: At(a, p) <==> At(b, p)
    ensures Target(a, current) == Target(b, current)
  {
    FrontierTransfers(a, b, current, n);
    ProvenEvidenceRefusedIff(a, current, n);
    ProvenEvidenceRefusedIff(b, current, n);
    if i :| 0 <= i < |a| && a[i].position > current + 1 {
      assert At(a, a[i].position);
    }
    if i :| 0 <= i < |b| && b[i].position > current + 1 {
      assert At(b, b[i].position);
    }
  }

  // --- the key of a watermark -------------------------------------------------------------------

  datatype Coordinates = Coordinates(chain: string, program: string, shard: string)

  /** `key`: the three names joined by colons. */
  function KeyOf(c: Coordinates): string { Joined(c.chain, Joined(c.program, c.shard)) }

  function Joined(a: string, b: string): string { a + ([':'] + b) }

  /** The second text goes on where the first one's colon is: `c` is `a`, a colon and `x`, and `x` is what `b` starts with. */
  ghost predicate Shifted(a: string, b: string, c: string, d: string) {
    exists x :: c == Joined(a, x) && b == Joined(x, d)
  }

  /** Two joins are the same text exactly when their parts are, or one first part swallows a colon of the other second part. */
  lemma JoinedSameIff(a: string, b: string, c: string, d: string)
    ensures Joined(a, b) == Joined(c, d) <==> (a == c && b == d) || Shifted(a, b, c, d) || Shifted(c, d, a, b)
  {
    if Joined(a, b) == Joined(c, d) {
      if |a| == |c| {
        SplitAt(a, c, [':'] + b, [':'] + d);
        Cancel([':'], b, d);
      } else if |a| < |c| {
        ShiftedWhenShorter(a, b, c, d);
      } else {
        ShiftedWhenShorter(c, d, a, b);
      }
    }
    if x :| c == Joined(a, x) && b == Joined(x, d) { JoinedAssociates(a, x, d); }
    if x :| a == Joined(c, x) && d == Joined(x, b) { JoinedAssociates(c, x, b); }
  }

  lemma JoinedAssociates(a: string, x: string, d: string)
    ensures Joined(a, Joined(x, d)) == Joined(Joined(a, x), d)
  {
  }

  lemma ShiftedWhenShorter(a: string, b: string, c: string, d: string)
    requires Joined(a, b) == Joined(c, d) && |a| < |c|
    ensures Shifted(a, b, c, d)
  {
    var k, x := Joined(a, b), c[|a| + 1..];
    assert k[..|a|] == a && k[|a|] == ':' && k[|a| + 1..] == b;
    assert k[..|c|] == c && k[|c|] == ':' && k[|c| + 1..] == d;
    assert c[..|a|] == a && c[|a|] == ':';
    assert c == Joined(a, x);
    assert b == k[|a| + 1..|c|] + ([':'] + d) && k[|a| + 1..|c|] == x;
  }

  /** Two collectors share a watermark row exactly when their names agree or a colon moves between neighbouring names. */
  lemma ShareRowIff(a: Coordinates, b: Coordinates)
    ensures KeyOf(a) == KeyOf(b) <==>
            || (a.chain == b.chain && Joined(a.program, a.shard) == Joined(b.program, b.shard))
            || Shifted(a.chain, Joined(a.program, a.shard), b.chain, Joined(b.program, b.shard))
            || Shifted(b.chain, Joined(b.program, b.shard), a.chain, Joined(a.program, a.shard))
    ensures Joined(a.program, a.shard) == Joined(b.program, b.shard) <==>
            || (a.program == b.program && a.shard == b.shard)
            || Shifted(a.program, a.shard, b.program, b.shard) || Shifted(b.program, b.shard, a.program, a.shard)
  {
    JoinedSameIff(a.chain, Joined(a.program, a.shard), b.chain, Joined(b.program, b.shard));
    JoinedSameIff(a.program, a.shard, b.program, b.shard);
  }

  /** Chain and program names without colons keep every shard to its own row, whatever the shard is called. */
  lemma PlainNamesNeverShare(a: Coordinates, b: Coordinates)
    requires ':' !in a.chain && ':' !in b.chain && ':' !in a.program && ':' !in b.program
    ensures KeyOf(a) == KeyOf(b) <==> a == b
  {
    if KeyOf(a) == KeyOf(b) {
      UpTo(a.chain, b.chain, ':', Joined(a.program, a.shard), Joined(b.program, b.shard));
      UpTo(a.program, b.program, ':', a.shard, b.shard);
    }
  }

  /** A colon in a name can move: these are two collectors and one row. */
  lemma ColonMoves()
    ensures KeyOf(Coordinates("sol", "v:1", "s")) == KeyOf(Coordinates("sol", "v", "1:s"))
  {
    assert Joined("v:1", "s") == "v:1:s" == Joined("v", "1:s");
  }

  // --- the stored watermark ---------------------------------------------------------------------

  datatype Mark = Mark(through: int, token: int)

  /** Lexicographic order on (token, position). */
  predicate NotBelow(a: Mark, b: Mark) {
    a.token > b.token || (a.token == b.token && a.through >= b.through)
  }

  /** The guarded upsert: a lower token, or a lower position under the same token, changes nothing. */
  function Upsert(marks: map<string, Mark>, key: string, mark: Mark): Result<map<string, Mark>, Refusal> {
    if mark.through < 0 || mark.token <= 0 then Err(ConstraintViolated)
    else if key in marks && !NotBelow(mark, marks[key]) then Err(StaleToken)
    else Ok(marks[key := mark])
  }

  function Advanced(marks: map<string, Mark>, key: string, current: int, evidence: seq<Evidence>, token: int)
    : Result<map<string, Mark>, Refusal>
  {
    var target := Target(evidence, current);
    if target.Err? then Err(target.error) else Upsert(marks, key, Mark(target.value, token))
  }

  /** Along every accepted write the stored pair never goes down, for any key. */
  lemma AdvanceIsMonotone(marks: map<string, Mark>, key: string, current: int, evidence: seq<Evidence>, token: int, k: string)
    requires Advanced(marks, key, current, evidence, token).Ok? && k in marks
    ensures k in Advanced(marks, key, current, evidence, token).value
    ensures NotBelow(Advanced(marks, key, current, evidence, token).value[k], marks[k])
  {
  }

  /** The stored row, if any, was written under an older token, or under this one at no later position. */
  predicate Yields(marks: map<string, Mark>, key: string, through: int, token: int) {
    key in marks ==> marks[key].token < token || (marks[key].token == token && marks[key].through <= through)
  }

  /** Every item that the walk over the evidence looks at carries a proof. */
  ghost predicate ProvenAsFar(sorted: seq<Evidence>, n: int) {
    forall i :: Reaches(sorted, n, i) ==> sorted[i].proof != ""
  }

  /** There is a target exactly when the walk meets proofs only and the frontier moves or nothing lies beyond the next position. */
  lemma TargetIff(evidence: seq<Evidence>, current: int, n: int)
    requires Frontier(evidence, current, n)
    ensures Target(evidence, current).Ok? <==>
            && ProvenAsFar(Sort(evidence, ByPosition), n)
            && (n > current || forall i :: 0 <= i < |evidence| ==> evidence[i].position <= current + 1)
    ensures Target(evidence, current).Ok? ==> Target(evidence, current) == Ok(n)
  {
    var sorted := Sort(evidence, ByPosition);
    SortedEvidence(evidence);
    FrontierTransfers(evidence, sorted, current, n);
    WalkIff(sorted, current, n);
  }

  lemma WalkIff(sorted: seq<Evidence>, current: int, n: int)
    requires Ascending(sorted) && Frontier(sorted, current, n)
    ensures Walk(sorted, current).Ok? <==> ProvenAsFar(sorted, n)
    ensures Walk(sorted, current).Ok? ==> Walk(sorted, current) == Ok(n)
  {
    WalkRefusesIff(sorted, current, n);
    if Walk(sorted, current).Ok? {
      WalkFindsFrontier(sorted, current);
    }
  }

  /**
   An advance is accepted exactly when there is a target, it and the token are in range, and the
   stored row yields. It then writes the frontier, and that row only.
   */
  lemma AdvanceAcceptedIff(marks: map<string, Mark>, key: string, current: int, evidence: seq<Evidence>, token: int, n: int)
    requires Frontier(evidence, current, n)
    ensures Advanced(marks, key, current, evidence, token).Ok? <==>
            && ProvenAsFar(Sort(evidence, ByPosition), n)
            && (n > current || forall i :: 0 <= i < |evidence| ==> evidence[i].position <= current + 1)
            && n >= 0 && token > 0 && Yields(marks, key, n, token)
    ensures Advanced(marks, key, current, evidence, token).Ok? ==>
              Advanced(marks, key, current, evidence, token).value == marks[key := Mark(n, token)]
  {
    TargetIff(evidence, current, n);
  }

  // --- runs -------------------------------------------------------------------------------------

  datatype Call = Call(key: string, current: int, evidence: seq<Evidence>, token: int)

  function Run(marks: map<string, Mark>, calls: seq<Call>): map<string, Mark>
    decreases |calls|
  {
    if calls == [] then marks
    else
      var last, before := calls[|calls| - 1], Run(marks, calls[..|calls| - 1]);
      var after := Advanced(before, last.key, last.current, last.evidence, last.token);
      if after.Ok? then after.value else before
  }

  /** A position some call of the run gave proven evidence for, under this key. */
  predicate Witnessed(calls: seq<Call>, key: string, p: int) {
    exists k :: 0 <= k < |calls| && calls[k].key == key && ProvenAt(calls[k].evidence, p)
  }

  ghost predicate CoveredDown(calls: seq<Call>, key: string, baseline: int, n: int) {
    forall p :: baseline < p <= n ==> Witnessed(calls, key, p)
  }

  /** Each caller starts from a position the run before it already covers. */
  ghost predicate Disciplined(calls: seq<Call>, key: string, baseline: int) {
    forall k :: 0 <= k < |calls| && calls[k].key == key ==> CoveredDown(calls[..k], key, baseline, calls[k].current)
  }

  lemma WitnessedLater(calls: seq<Call>, k: nat, key: string, p: int)
    requires k <= |calls| && Witnessed(calls[..k], key, p)
    ensures Witnessed(calls, key, p)
  {
    var j :| 0 <= j < k && calls[..k][j].key == key && ProvenAt(calls[..k][j].evidence, p);
    assert calls[j] == calls[..k][j];
  }

  /** In disciplined runs every stored watermark is evidenced down to the baseline, whoever wrote it. */
  lemma {:induction false} WatermarkIsEvidenced(calls: seq<Call>, key: string, baseline: int)
    requires Disciplined(calls, key, baseline) && key in Run(map[], calls)
    ensures CoveredDown(calls, key, baseline, Run(map[], calls)[key].through)
    decreases |calls|
  {
    if calls != [] {
      var n := |calls| - 1;
      var init, last := calls[..n], calls[n];
      var before, after := Run(map[], init), Run(map[], calls);
      assert forall k :: 0 <= k < n ==> init[k] == calls[k] && init[..k] == calls[..k];
      if Advanced(before, last.key, last.current, last.evidence, last.token).Ok? && last.key == key {
        TargetIsFrontier(last.evidence, last.current);
        forall p | baseline < p <= after[key].through ensures Witnessed(calls, key, p) {
          if p <= last.current {
            WitnessedLater(calls, n, key, p);
          } else {
            assert ProvenAt(last.evidence, p);
          }
        }
      } else {
        WatermarkIsEvidenced(init, key, baseline);
        forall p | baseline < p <= after[key].through ensures Witnessed(calls, key, p) {
          WitnessedLater(calls, n, key, p);
        }
      }
    }
  }

  /** Continuing from the stored watermark is disciplined. */
  lemma ContinuingIsDisciplined(calls: seq<Call>, key: string, baseline: int, call: Call)
    requires Disciplined(calls, key, baseline) && call.key == key
    requires call.current <= baseline || (key in Run(map[], calls) && call.current <= Run(map[], calls)[key].through)
    ensures Disciplined(calls + [call], key, baseline)
  {
    if call.current > baseline {
      WatermarkIsEvidenced(calls, key, baseline);
    }
    var all := calls + [call];
    forall k | 0 <= k < |all| && all[k].key == key ensures CoveredDown(all[..k], key, baseline, all[k].current) {
      assert all[..k] == calls[..k];
      assert k == |calls| ==> all[..k] == calls;
    }
  }

  // --- the loop ---------------------------------------------------------------------------------

  class WatermarkCoordinator {
    var marks: map<string, Mark>

    constructor ()
      ensures marks == map[]
    {
      marks := map[];
    }

    /** `advance`: sort, walk, guard, upsert. */
    method Advance(at: Coordinates, current: int, evidence: seq<Evidence>, token: int) returns (r: Result<int, Refusal>)
      modifies this
      ensures match Advanced(old(marks), KeyOf(at), current, evidence, token)
              case Ok(after) => marks == after && r == Ok(after[KeyOf(at)].through) && Frontier(evidence, current, r.value)
              case Err(refusal) => marks == old(marks) && r == Err(refusal)
    {
      var key := KeyOf(at);
      var buffer := InsertionSort(evidence, ByPosition);
      var sorted := buffer[..];
      var next := current;
      var index := 0;
      while index < |sorted|
        invariant 0 <= index <= |sorted|
        invariant Walk(sorted, current) == Walk(sorted[index..], next)
      {
        var item := sorted[index];
        assert sorted[index..][1..] == sorted[index + 1..];
        if item.proof == "" {
          return Err(ProofRequired);
        }
        if item.position == next + 1 {
          next := item.position;
        } else if item.position > next + 1 {
          break;
        }
        index := index + 1;
      }
      assert Walk(sorted, current) == Ok(next);
      if next == current && exists i :: 0 <= i < |evidence| && evidence[i].position > current + 1 {
        return Err(NonContiguous);
      }
      TargetIsFrontier(evidence, current);
      var written := Upsert(marks, key, Mark(next, token));
      if written.Err? {
        return Err(written.error);
      }
      marks := written.value;
      r := Ok(marks[key].through);
    }
  }
}
