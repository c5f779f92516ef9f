/** Backfill planning: a bounded in-order prefix of the tiling of all gaps. */
module Backfill {
  import opened Prelude
  import Radix

  datatype Declaration = Declaration(provider: string, operation: string, maximumRange: int, maximumJobs: int,
                                     estimatedUnits: real, emergencyEligible: bool)

  datatype Gap = Gap(id: string, start: int, end: int, emergency: bool)

  datatype Job = Job(gapId: string, start: int, end: int, emergency: bool)

  datatype Refusal = InvalidDeclaration | InvalidGap(id: string) | Blocked(call: nat)

  predicate ValidDeclaration(d: Declaration) {
    d.provider != "" && d.operation != "" && d.maximumRange >= 1 && d.maximumJobs >= 1 && d.estimatedUnits >= 0.0
  }

  predicate ValidGap(gap: Gap) { 0 <= gap.start <= gap.end }

  function JobAt(d: Declaration, gap: Gap, start: int): Job {
    var end := start + d.maximumRange - 1;
    Job(gap.id, start, if gap.end <= end then gap.end else end, gap.emergency && d.emergencyEligible)
  }

  /** The rest of a gap, cut into consecutive jobs. */
  function Tiling(d: Declaration, gap: Gap, start: int): (jobs: seq<Job>)
    requires d.maximumRange >= 1
    decreases if start <= gap.end then gap.end - start + 1 else 0
  {
    if start > gap.end then [] else [JobAt(d, gap, start)] + Tiling(d, gap, start + d.maximumRange)
  }

  function FullPlan(d: Declaration, gaps: seq<Gap>): seq<Job>
    requires d.maximumRange >= 1
  {
    if gaps == [] then [] else FullPlan(d, gaps[..|gaps| - 1]) + Tiling(d, gaps[|gaps| - 1], gaps[|gaps| - 1].start)
  }

  /** The first `maximumJobs` jobs of the tiling of all gaps. */
  function Capped(d: Declaration, jobs: seq<Job>): seq<Job> {
    if |jobs| <= d.maximumJobs then jobs else if d.maximumJobs < 0 then [] else jobs[..d.maximumJobs]
  }

  // --- the tiling -------------------------------------------------------------------------------

  /** `n / r`, rounded up. */
  function Ceiling(n: nat, r: int): int
    requires r >= 1
  {
    (n + r - 1) / r
  }

  lemma DivideStep(a: nat, r: int)
    requires r >= 1
    ensures (a + r) / r == a / r + 1
  {
    var q, m := a / r, a % r;
    assert a + r == (q + 1) * r + m;
    Radix.DivMod(q + 1, m, r);
  }

  lemma SmallQuotient(a: nat, r: int)
    requires a < r
    ensures a / r == 0
  {
    Radix.DivMod(0, a, r);
  }

  lemma {:induction false} TilingCount(d: Declaration, gap: Gap, start: int)
    requires d.maximumRange >= 1 && start <= gap.end + d.maximumRange
    ensures |Tiling(d, gap, start)| == Ceiling(if start <= gap.end then gap.end - start + 1 else 0, d.maximumRange)
    decreases if start <= gap.end then gap.end - start + 1 else 0
  {
    var r := d.maximumRange;
    if start <= gap.end {
      TilingCount(d, gap, start + r);
      var n := gap.end - start + 1;
      DivideStep(n - 1, r);
      if n <= r {
        SmallQuotient(n - 1, r);
        SmallQuotient(r - 1, r);
      } else {
        assert n - r + r - 1 == n - 1;
      }
    } else {
      SmallQuotient(r - 1, r);
    }
  }

  predicate Covers(job: Job, p: int) { job.start <= p <= job.end }

  predicate Covered(jobs: seq<Job>, p: int) {
    exists i :: 0 <= i < |jobs| && Covers(jobs[i], p)
  }

  /** The next job starts right after this one, which is as wide as allowed. */
  predicate Abut(d: Declaration, jobs: seq<Job>, i: int)
    requires 0 <= i < |jobs| - 1
  {
    jobs[i + 1].start == jobs[i].end + 1 && jobs[i].end - jobs[i].start + 1 == d.maximumRange
  }

  /** Jobs run on without hole or overlap, none wider than the range, from `start` to the end of the gap. */
  predicate TilesFrom(d: Declaration, gap: Gap, start: int, jobs: seq<Job>) {
    && (forall i :: 0 <= i < |jobs| ==>
          && jobs[i].gapId == gap.id && jobs[i].emergency == (gap.emergency && d.emergencyEligible)
          && start <= jobs[i].start <= jobs[i].end <= gap.end && jobs[i].end - jobs[i].start + 1 <= d.maximumRange)
    && (forall i :: 0 <= i < |jobs| - 1 ==> Abut(d, jobs, i))
    && (jobs != [] ==> jobs[0].start == start && jobs[|jobs| - 1].end == gap.end)
    && (jobs == [] <==> start > gap.end)
  }

  lemma {:induction false} TilingTiles(d: Declaration, gap: Gap, start: int)
    requires d.maximumRange >= 1
    ensures TilesFrom(d, gap, start, Tiling(d, gap, start))
    decreases if start <= gap.end then gap.end - start + 1 else 0
  {
    if start <= gap.end {
      TilingTiles(d, gap, start + d.maximumRange);
      ConsTiles(d, gap, start, Tiling(d, gap, start + d.maximumRange));
    }
  }

  /** Together the jobs cover the gap and nothing else. */
  lemma {:induction false} TilingCovers(d: Declaration, gap: Gap, start: int, p: int)
    requires d.maximumRange >= 1
    ensures Covered(Tiling(d, gap, start), p) <==> start <= p <= gap.end
    decreases if start <= gap.end then gap.end - start + 1 else 0
  {
    if start <= gap.end {
      TilingCovers(d, gap, start + d.maximumRange, p);
      CoveredConcat([JobAt(d, gap, start)], Tiling(d, gap, start + d.maximumRange), p);
      CoveredOne(JobAt(d, gap, start), p);
    }
  }

  lemma ConsTiles(d: Declaration, gap: Gap, start: int, rest: seq<Job>)
    requires d.maximumRange >= 1 && start <= gap.end && TilesFrom(d, gap, start + d.maximumRange, rest)
    ensures TilesFrom(d, gap, start, [JobAt(d, gap, start)] + rest)
  {
    var first := JobAt(d, gap, start);
    var jobs := [first] + rest;
    assert forall i :: 1 <= i < |jobs| ==> jobs[i] == rest[i - 1];
    forall i | 0 <= i < |jobs| - 1 ensures Abut(d, jobs, i) {
      if i > 0 {
        assert Abut(d, rest, i - 1);
      }
    }
  }

  lemma CoveredOne(job: Job, p: int)
    ensures Covered([job], p) <==> Covers(job, p)
  {
    assert [job][0] == job;
  }

  lemma CoveredConcat(a: seq<Job>, b: seq<Job>, p: int)
    ensures Covered(a + b, p) <==> Covered(a, p) || Covered(b, p)
  {
    if i :| 0 <= i < |a| && Covers(a[i], p) {
      assert Covers((a + b)[i], p);
    }
    if i :| 0 <= i < |b| && Covers(b[i], p) {
      assert Covers((a + b)[|a| + i], p);
    }
  }

  // --- all gaps ---------------------------------------------------------------------------------

  function TotalJobs(d: Declaration, gaps: seq<Gap>): int
    requires d.maximumRange >= 1
  {
    if gaps == [] then 0
    else
      var gap := gaps[|gaps| - 1];
      TotalJobs(d, gaps[..|gaps| - 1]) + Ceiling(if gap.start <= gap.end then gap.end - gap.start + 1 else 0, d.maximumRange)
  }

  predicate InSomeGap(gaps: seq<Gap>, p: int) {
    exists i :: 0 <= i < |gaps| && gaps[i].start <= p <= gaps[i].end
  }

  lemma InSomeGapStep(gaps: seq<Gap>, p: int)
    requires gaps != []
    ensures var last := gaps[|gaps| - 1];
            InSomeGap(gaps, p) <==> InSomeGap(gaps[..|gaps| - 1], p) || last.start <= p <= last.end
  {
    var init := gaps[..|gaps| - 1];
    assert forall i :: 0 <= i < |init| ==> init[i] == gaps[i];
  }

  /** The full plan has the announced number of jobs and covers exactly the gaps. */
  lemma {:induction false} FullPlanCovers(d: Declaration, gaps: seq<Gap>)
    requires d.maximumRange >= 1 && forall i :: 0 <= i < |gaps| ==> ValidGap(gaps[i])
    ensures |FullPlan(d, gaps)| == TotalJobs(d, gaps)
    ensures forall p :: Covered(FullPlan(d, gaps), p) <==> InSomeGap(gaps, p)
    decreases |gaps|
  {
    if gaps != [] {
      var init, last := gaps[..|gaps| - 1], gaps[|gaps| - 1];
      FullPlanCovers(d, init);
      TilingCount(d, last, last.start);
      forall p ensures Covered(FullPlan(d, gaps), p) <==> InSomeGap(gaps, p) {
        TilingCovers(d, last, last.start, p);
        CoveredConcat(FullPlan(d, init), Tiling(d, last, last.start), p);
        InSomeGapStep(gaps, p);
      }
    }
  }

  /** Widths never exceed the range, whatever the gaps. */
  lemma {:induction false} NoJobTooWide(d: Declaration, gaps: seq<Gap>)
    requires d.maximumRange >= 1
    ensures forall job :: job in FullPlan(d, gaps) ==> 0 < job.end - job.start + 1 <= d.maximumRange
    decreases |gaps|
  {
    if gaps != [] {
      var last := gaps[|gaps| - 1];
      NoJobTooWide(d, gaps[..|gaps| - 1]);
      TilingTiles(d, last, last.start);
    }
  }

  // --- the loops --------------------------------------------------------------------------------

  /** Calls `admit` before each job of one gap, in order, until the cap is reached. */
  method PlanGap(d: Declaration, gap: Gap, admit: nat -> bool, before: seq<Job>) returns (r: Result<seq<Job>, Refusal>)
    requires ValidDeclaration(d) && |before| <= d.maximumJobs
    ensures r.Ok? ==> r.value == Capped(d, before + Tiling(d, gap, gap.start)) && forall k :: |before| <= k < |r.value| ==> admit(k)
    ensures r.Err? ==>
              && r.error.Blocked? && |before| <= r.error.call < |Capped(d, before + Tiling(d, gap, gap.start))|
              && !admit(r.error.call) && forall k :: |before| <= k < r.error.call ==> admit(k)
  {
    var jobs := before;
    var start := gap.start;
    ghost var full := before + Tiling(d, gap, gap.start);
    while start <= gap.end && |jobs| < d.maximumJobs
      invariant |before| <= |jobs| <= d.maximumJobs
      invariant full == jobs + Tiling(d, gap, start)
      invariant forall k :: |before| <= k < |jobs| ==> admit(k)
      decreases if start <= gap.end then gap.end - start + 1 else 0
    {
      if !admit(|jobs|) {
        return Err(Blocked(|jobs|));
      }
      assert full == (jobs + [JobAt(d, gap, start)]) + Tiling(d, gap, start + d.maximumRange);
      jobs := jobs + [JobAt(d, gap, start)];
      start := start + d.maximumRange;
    }
    assert full[..|jobs|] == jobs;
    r := Ok(jobs);
  }

  /** The first `maximumJobs` of the jobs of a prefix do not change when more gaps follow a full plan. */
  lemma CappedConcat(d: Declaration, a: seq<Job>, b: seq<Job>)
    requires d.maximumJobs >= 1
    ensures Capped(d, Capped(d, a) + b) == Capped(d, a + b)
  {
  }

  /** What a refusal means: the first thing that stops the walk over gaps and jobs. */
  predicate Explains(d: Declaration, gaps: seq<Gap>, admit: nat -> bool, refusal: Refusal)
    requires ValidDeclaration(d)
  {
    match refusal
    case InvalidDeclaration => false
    case InvalidGap(id) =>
      exists g :: 0 <= g < |gaps| && gaps[g].id == id && FirstInvalid(gaps, g) && AdmitsAll(admit, |Capped(d, FullPlan(d, gaps[..g]))|)
    case Blocked(call) =>
      && !admit(call) && AdmitsAll(admit, call)
      && exists g :: 0 <= g <= |gaps| && ValidUpTo(gaps, g) && call < |Capped(d, FullPlan(d, gaps[..g]))|
  }

  predicate AdmitsAll(admit: nat -> bool, n: nat) { forall k: nat :: k < n ==> admit(k) }

  predicate ValidUpTo(gaps: seq<Gap>, g: int)
    requires 0 <= g <= |gaps|
  {
    forall h :: 0 <= h < g ==> ValidGap(gaps[h])
  }

  predicate FirstInvalid(gaps: seq<Gap>, g: int)
    requires 0 <= g < |gaps|
  {
    !ValidGap(gaps[g]) && ValidUpTo(gaps, g)
  }

  /**
   `plan`: the in-order prefix of the tiling, `min(maximumJobs, total)` jobs long. It is returned
   exactly when every gap is valid and every job in it is admitted.
   */
  method Plan(d: Declaration, gaps: seq<Gap>, admit: nat -> bool) returns (r: Result<seq<Job>, Refusal>)
    ensures !ValidDeclaration(d) <==> r == Err(InvalidDeclaration)
    ensures r.Ok? ==>
              && r.value == Capped(d, FullPlan(d, gaps)) && ValidUpTo(gaps, |gaps|) && AdmitsAll(admit, |r.value|)
              && |r.value| == (if TotalJobs(d, gaps) <= d.maximumJobs then TotalJobs(d, gaps) else d.maximumJobs)
              && (forall job :: job in r.value ==> 0 < job.end - job.start + 1 <= d.maximumRange)
              && (TotalJobs(d, gaps) <= d.maximumJobs ==> forall p :: Covered(r.value, p) <==> InSomeGap(gaps, p))
    ensures r.Err? && r.error != InvalidDeclaration ==> ValidDeclaration(d) && Explains(d, gaps, admit, r.error)
  {
    if !ValidDeclaration(d) {
      return Err(InvalidDeclaration);
    }
    var jobs: seq<Job> := [];
    for g := 0 to |gaps|
      invariant jobs == Capped(d, FullPlan(d, gaps[..g])) && |jobs| <= d.maximumJobs
      invariant ValidUpTo(gaps, g) && AdmitsAll(admit, |jobs|)
    {
      if !ValidGap(gaps[g]) {
        assert FirstInvalid(gaps, g);
        return Err(InvalidGap(gaps[g].id));
      }
      assert gaps[..g + 1][..g] == gaps[..g];
      CappedConcat(d, FullPlan(d, gaps[..g]), Tiling(d, gaps[g], gaps[g].start));
      var planned := PlanGap(d, gaps[g], admit, jobs);
      if planned.Err? {
        assert ValidUpTo(gaps, g + 1);
        return Err(planned.error);
      }
      jobs := planned.value;
    }
    assert gaps[..|gaps|] == gaps;
    FullPlanCovers(d, gaps);
    NoJobTooWide(d, gaps);
    r := Ok(jobs);
  }
}
