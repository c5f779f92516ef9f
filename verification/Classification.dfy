/** Alert classification: routing, the fourteen confirmed-opportunity gates, and the cross-check of supplied results. */
module Classification {
  import opened Prelude
  import opened Lists
  import opened Fingerprints
  import Sorting = ShadowSafe

  datatype Gate =
    | DecisionAlert | NoCriticalRisk | ProfileEligibility | MinimumDataCoverage | MinimumIndependentEvidenceGroups
    | Freshness | SemanticValidation | UnresolvedConflictThreshold | FingerprintCooldown | DailyScheduleBudget
    | ExecutionAwareTradability | AlertNotExpired | SolanaSecurityChecks | StrictFreeCostPolicy

  const GATES: seq<Gate> := [
    DecisionAlert, NoCriticalRisk, ProfileEligibility, MinimumDataCoverage, MinimumIndependentEvidenceGroups,
    Freshness, SemanticValidation, UnresolvedConflictThreshold, FingerprintCooldown, DailyScheduleBudget,
    ExecutionAwareTradability, AlertNotExpired, SolanaSecurityChecks, StrictFreeCostPolicy]

  function Index(gate: Gate): nat {
    match gate
    case DecisionAlert => 0
    case NoCriticalRisk => 1
    case ProfileEligibility => 2
    case MinimumDataCoverage => 3
    case MinimumIndependentEvidenceGroups => 4
    case Freshness => 5
    case SemanticValidation => 6
    case UnresolvedConflictThreshold => 7
    case FingerprintCooldown => 8
    case DailyScheduleBudget => 9
    case ExecutionAwareTradability => 10
    case AlertNotExpired => 11
    case SolanaSecurityChecks => 12
    case StrictFreeCostPolicy => 13
  }

  /** The list holds every gate once, at its index. */
  predicate Enumerates(all: seq<Gate>) {
    && (forall g: Gate :: Index(g) < |all| && all[Index(g)] == g)
    && (forall i :: 0 <= i < |all| ==> Index(all[i]) == i)
  }

  lemma GatesShape()
    ensures |GATES| == 14 && Enumerates(GATES)
  {
  }

  datatype Reason =
    | DuplicateFingerprint | WithinCooldown | ImmaterialChange | GateRefused | DailyScheduleBudgetExhausted
    | ExpiredActionability | CriticalContradiction | FailedRequiredDelayScenario | UnsupportedAdapter
    | UnauthorizedPerformanceClaim | HighConvictionLanguage | SocialUnavailableOrganicConfirmation | ShadowMode

  datatype GateResult = GateResult(gate: Gate, passed: bool, reason: Option<Reason>)

  /** What one gate function says of well-shaped input. */
  datatype Verdict = Passes | Refuses(reason: Reason)

  /** Gate inputs: which fields fail their schema, whether an unknown field is present, and the gate functions. */
  datatype GateInputs = GateInputs(unknownField: bool, malformed: set<Gate>, judge: Gate -> Verdict)

  function Judged(inputs: GateInputs, gate: Gate): (r: GateResult)
    ensures r.gate == gate && (r.passed <==> r.reason.None?)
  {
    if inputs.unknownField || gate in inputs.malformed then GateResult(gate, false, Some(GateRefused))
    else match inputs.judge(gate)
      case Passes => GateResult(gate, true, None)
      case Refuses(reason) => GateResult(gate, false, Some(reason))
  }

  /** `evaluateConfirmedOpportunityGates`: one result per gate, in canonical order. */
  function EvaluateGates(inputs: GateInputs): seq<GateResult> { JudgeAll(inputs, GATES) }

  function JudgeAll(inputs: GateInputs, all: seq<Gate>): (rs: seq<GateResult>)
    ensures |rs| == |all| && forall i :: 0 <= i < |all| ==> rs[i] == Judged(inputs, all[i])
  {
    seq(|all|, i requires 0 <= i < |all| => Judged(inputs, all[i]))
  }

  // --- the gate set -----------------------------------------------------------------------------

  function GatesOf(results: seq<GateResult>): (gs: seq<Gate>)
    ensures |gs| == |results| && forall i :: 0 <= i < |gs| ==> gs[i] == results[i].gate
  {
    seq(|results|, i requires 0 <= i < |results| => results[i].gate)
  }

  /** `confirmedOpportunityGateSetComplete`. */
  predicate SetComplete(observed: seq<Gate>) { Complete(GATES, observed) }

  predicate Complete(all: seq<Gate>, observed: seq<Gate>) {
    && |observed| == |all|
    && |set g | g in observed| == |all|
    && forall i :: 0 <= i < |all| ==> all[i] in observed
  }

  /** A list as long as its set of elements repeats nothing. */
  lemma {:induction false} NoRepeats(gates: seq<Gate>)
    ensures |set g | g in gates| <= |gates|
    ensures |set g | g in gates| == |gates| ==> forall g :: multiset(gates)[g] <= 1
    decreases |gates|
  {
    if gates != [] {
      var init, last := gates[..|gates| - 1], gates[|gates| - 1];
      NoRepeats(init);
      assert gates == init + [last];
      var all, before := set g | g in gates, set g | g in init;
      assert all == before + {last};
      if last in before {
        assert all == before;
      } else {
        assert last !in multiset(init);
      }
    }
  }

  lemma CountOfAll(all: seq<Gate>, gate: Gate)
    requires Enumerates(all)
    ensures multiset(all)[gate] == 1
  {
    forall i, j | 0 <= i < j < |all| ensures all[i] != all[j] {
      assert Index(all[i]) == i && Index(all[j]) == j;
    }
    OnceInMultiset(all, gate);
    assert all[Index(gate)] in multiset(all);
  }

  lemma CompleteIff(all: seq<Gate>, observed: seq<Gate>)
    requires Enumerates(all)
    ensures Complete(all, observed) <==> multiset(observed) == multiset(all)
  {
    forall g ensures multiset(all)[g] == 1 {
      CountOfAll(all, g);
    }
    if Complete(all, observed) {
      NoRepeats(observed);
      forall g ensures multiset(observed)[g] == 1 {
        assert all[Index(g)] in observed;
        assert g in multiset(observed);
      }
    }
    if multiset(observed) == multiset(all) {
      assert |observed| == |multiset(observed)| == |multiset(all)| == |all|;
      forall i | 0 <= i < |all| ensures all[i] in observed {
        assert all[i] in multiset(observed);
      }
      SizeOfDistinct(observed);
    }
  }

  /** The check accepts exactly the orderings of the fourteen gates. */
  lemma SetCompleteIff(observed: seq<Gate>)
    ensures SetComplete(observed) <==> multiset(observed) == multiset(GATES)
  {
    GatesShape();
    CompleteIff(GATES, observed);
  }

  lemma {:induction false} SizeOfDistinct(gates: seq<Gate>)
    requires forall g :: multiset(gates)[g] <= 1
    ensures |set g | g in gates| == |gates|
    decreases |gates|
  {
    if gates != [] {
      var init, last := gates[..|gates| - 1], gates[|gates| - 1];
      assert gates == init + [last];
      forall g ensures multiset(init)[g] <= 1 {
        assert multiset(init)[g] <= multiset(gates)[g];
      }
      SizeOfDistinct(init);
      assert multiset(gates)[last] == multiset(init)[last] + 1;
      assert last !in multiset(init);
      assert (set g | g in gates) == (set g | g in init) + {last};
    }
  }

  /** `confirmedOpportunityEligible`. */
  predicate Eligible(results: seq<GateResult>) { SetComplete(GatesOf(results)) && AllPass(results) }

  predicate AllPass(results: seq<GateResult>) {
    forall i :: 0 <= i < |results| ==> results[i].passed && results[i].reason.None?
  }

  /** `firstRefusedGate`. */
  function FirstRefused(results: seq<GateResult>): Option<GateResult> {
    if results == [] then None
    else if !results[0].passed then Some(results[0])
    else FirstRefused(results[1..])
  }

  /** A fresh evaluation is always a complete set, so eligibility is that every gate passes. */
  lemma FreshIsEligibleIff(inputs: GateInputs)
    ensures SetComplete(GatesOf(EvaluateGates(inputs)))
    ensures Eligible(EvaluateGates(inputs)) <==> forall g :: Judged(inputs, g).passed
  {
    GatesShape();
    EligibleIff(inputs, GATES);
  }

  lemma EligibleIff(inputs: GateInputs, all: seq<Gate>)
    requires Enumerates(all)
    ensures GatesOf(JudgeAll(inputs, all)) == all
    ensures Complete(all, GatesOf(JudgeAll(inputs, all)))
    ensures AllPass(JudgeAll(inputs, all)) <==> forall g :: Judged(inputs, g).passed
  {
    var rs := JudgeAll(inputs, all);
    CompleteIff(all, GatesOf(rs));
    if AllPass(rs) {
      forall g ensures Judged(inputs, g).passed {
        assert rs[Index(g)] == Judged(inputs, g);
      }
    }
  }

  // --- the cross-check --------------------------------------------------------------------------

  function After(p: GateResult, c: GateResult): bool { Index(p.gate) > Index(c.gate) }

  /** `gateResultsMatch`: equal lengths, and equal after a stable sort by canonical position. */
  predicate ResultsMatch(supplied: seq<GateResult>, evaluated: seq<GateResult>) {
    |supplied| == |evaluated| && Sorting.Sort(supplied, After) == Sorting.Sort(evaluated, After)
  }

  /** The cross-check accepts exactly the permutations of the fresh evaluation. */
  lemma MatchIffPermutation(supplied: seq<GateResult>, inputs: GateInputs)
    ensures ResultsMatch(supplied, EvaluateGates(inputs)) <==> multiset(supplied) == multiset(EvaluateGates(inputs))
  {
    var evaluated := EvaluateGates(inputs);
    assert Sorting.IsOrder(After);
    Sorting.SortIsStable(supplied, After);
    Sorting.SortIsStable(evaluated, After);
    if multiset(supplied) == multiset(evaluated) {
      assert |supplied| == |multiset(supplied)| == |multiset(evaluated)| == |evaluated|;
      GatesShape();
      assert Sorting.NoTies(JudgeAll(inputs, GATES), After) by { NoTiesInOrder(inputs, GATES); }
      Sorting.SortForgetsOrder(evaluated, supplied, After);
    }
  }

  lemma NoTiesInOrder(inputs: GateInputs, all: seq<Gate>)
    requires Enumerates(all)
    ensures Sorting.NoTies(JudgeAll(inputs, all), After)
  {
  }

  // --- the request ------------------------------------------------------------------------------

  datatype Decision = Alert | Watch | Ignore | Reject | InsufficientData

  datatype Actionability = Actionable | Expiring | Expired | Cancelled

  datatype Request = Request(decision: Decision, recommendation: Option<AlertClass>, lifecycle: Lifecycle, risk: RiskState,
                             validUntil: int, now: Option<int>, priorAlert: bool, socialUnavailable: bool, organicClaimed: bool,
                             prohibitedCapability: bool, gateInputs: Option<GateInputs>, gateResults: seq<GateResult>)

  /** `actionabilityFor` without a recorded cancellation, in milliseconds. */
  function ActionabilityAt(validUntil: int, now: int): Actionability {
    if now >= validUntil then Expired
    else if validUntil - now <= 300_000 then Expiring
    else Actionable
  }

  datatype Route = Class(alertClass: AlertClass) | Suppress(reason: Reason)

  predicate Declined(decision: Decision) { decision.Ignore? || decision.Reject? || decision.InsufficientData? }

  predicate RiskClass(risk: RiskState) { risk in {High, Critical, Conflicting} }

  predicate Terminal(lifecycle: Lifecycle) { lifecycle in {Archived, Rejected} }

  function RoutePrior(request: Request, actionability: Option<Actionability>): Route {
    if actionability == Some(Expired) || actionability == Some(Cancelled) then Suppress(ExpiredActionability)
    else if actionability == Some(Expiring) then Class(OpportunityExpired)
    else if RiskClass(request.risk) then Class(RiskAlert)
    else if Terminal(request.lifecycle) then Class(OpportunityExpired)
    else if request.lifecycle == Decaying then Class(ThesisWeakening)
    else Class(ThesisStrengthening)
  }

  /** `routeAlertClass`. */
  function RouteClass(request: Request, gates: seq<GateResult>, complete: bool): Route {
    if request.socialUnavailable && request.organicClaimed then Suppress(SocialUnavailableOrganicConfirmation)
    else if Declined(request.decision) then Suppress(GateRefused)
    else
      var actionability := if request.now.None? then None else Some(ActionabilityAt(request.validUntil, request.now.value));
      if request.priorAlert then RoutePrior(request, actionability)
      else if actionability == Some(Expired) || actionability == Some(Cancelled) then Suppress(ExpiredActionability)
      else if Terminal(request.lifecycle) then Class(OpportunityExpired)
      else if RiskClass(request.risk) then Class(RiskAlert)
      else if request.recommendation == Some(ConfirmedOpportunity) || (request.recommendation.None? && request.gateInputs.Some?) then
        if !complete then Suppress(GateRefused)
        else if !Eligible(gates) then
          var refused := FirstRefused(gates);
          Suppress(if refused.Some? && refused.value.reason.Some? then refused.value.reason.value else GateRefused)
        else Class(ConfirmedOpportunity)
      else if request.recommendation.Some? then Class(request.recommendation.value)
      else Class(EarlyWatch)
  }

  datatype Refusal = ProhibitedCapability | ResultsContradictInputs

  datatype Outcome = Outcome(route: Route, gates: seq<GateResult>, socialUnknown: bool, organicClaimed: bool, gateSetComplete: bool)

  /** `resolveGateResults`: a fresh evaluation is the only complete set. */
  function ResolveGates(request: Request): Result<(seq<GateResult>, bool), Refusal> {
    match request.gateInputs
    case Some(inputs) =>
      var evaluated := EvaluateGates(inputs);
      if request.gateResults != [] && !ResultsMatch(request.gateResults, evaluated) then Err(ResultsContradictInputs)
      else Ok((evaluated, true))
    case None => Ok((request.gateResults, false))
  }

  /** `classifyAlert`. */
  function Classify(request: Request): Result<Outcome, Refusal> {
    if request.prohibitedCapability then Err(ProhibitedCapability)
    else
      var resolved := ResolveGates(request);
      if resolved.Err? then Err(resolved.error)
      else
        var (gates, complete) := resolved.value;
        var route := RouteClass(request, gates, complete);
        Ok(Outcome(route, gates, request.socialUnavailable,
                   route.Class? && !request.socialUnavailable && request.organicClaimed, complete))
  }

  // --- laws -------------------------------------------------------------------------------------

  /** A request is answered exactly when its supplied results are absent or a permutation of the fresh evaluation. */
  lemma AnsweredIff(request: Request)
    ensures Classify(request).Ok? <==>
            && !request.prohibitedCapability
            && (request.gateInputs.None? || request.gateResults == []
                || multiset(request.gateResults) == multiset(EvaluateGates(request.gateInputs.value)))
  {
    if request.gateInputs.Some? {
      MatchIffPermutation(request.gateResults, request.gateInputs.value);
    }
  }

  /** Supplied results never influence the class or the suppression reason. */
  lemma SuppliedResultsNeverMatter(request: Request, other: seq<GateResult>)
    requires Classify(request).Ok? && Classify(request.(gateResults := other)).Ok?
    ensures var a, b := Classify(request).value, Classify(request.(gateResults := other)).value;
            a.route == b.route && a.organicClaimed == b.organicClaimed && a.gateSetComplete == b.gateSetComplete
  {
    var twin := request.(gateResults := other);
    var mine, others := ResolveGates(request).value, ResolveGates(twin).value;
    RouteIgnoresIncompleteGates(request, mine.0, others.0);
    assert RouteClass(twin, others.0, others.1) == RouteClass(request, others.0, others.1);
  }

  lemma RouteIgnoresIncompleteGates(request: Request, a: seq<GateResult>, b: seq<GateResult>)
    ensures RouteClass(request, a, false) == RouteClass(request, b, false)
  {
  }

  /** Nothing earlier in the routing order decides the request. */
  predicate ReachesGates(request: Request) {
    && !(request.socialUnavailable && request.organicClaimed)
    && !Declined(request.decision)
    && !request.priorAlert
    && (request.now.None? || request.now.value < request.validUntil)
    && !Terminal(request.lifecycle) && !RiskClass(request.risk)
  }

  /** CONFIRMED_OPPORTUNITY, exactly: asked for, reached, and all fourteen fresh gates pass. */
  lemma ConfirmedIff(request: Request)
    requires Classify(request).Ok?
    ensures Classify(request).value.route == Class(ConfirmedOpportunity) <==>
            && ReachesGates(request)
            && request.recommendation in {None, Some(ConfirmedOpportunity)}
            && request.gateInputs.Some?
            && forall g :: Judged(request.gateInputs.value, g).passed
  {
    var resolved := ResolveGates(request).value;
    RouteConfirmedIff(request, resolved.0, resolved.1);
    if request.gateInputs.Some? {
      FreshIsEligibleIff(request.gateInputs.value);
    }
  }

  lemma RouteConfirmedIff(request: Request, gates: seq<GateResult>, complete: bool)
    ensures RouteClass(request, gates, complete) == Class(ConfirmedOpportunity) <==>
            && ReachesGates(request) && complete && Eligible(gates)
            && (request.recommendation == Some(ConfirmedOpportunity) || (request.recommendation.None? && request.gateInputs.Some?))
  {
  }

  lemma {:induction false} FirstRefusedIs(results: seq<GateResult>, i: nat)
    requires i < |results| && !results[i].passed && forall j :: 0 <= j < i ==> results[j].passed
    ensures FirstRefused(results) == Some(results[i])
    decreases i
  {
    if i > 0 {
      FirstRefusedIs(results[1..], i - 1);
    }
  }

  /** A would-be confirmed opportunity is suppressed with the reason of the first refusing gate in canonical order. */
  lemma SuppressionNamesFirstRefusal(request: Request, gate: Gate)
    requires Classify(request).Ok? && ReachesGates(request) && request.recommendation in {None, Some(ConfirmedOpportunity)}
    requires request.gateInputs.Some? && !Judged(request.gateInputs.value, gate).passed
    requires forall g :: Index(g) < Index(gate) ==> Judged(request.gateInputs.value, g).passed
    ensures Classify(request).value.route == Suppress(Judged(request.gateInputs.value, gate).reason.value)
  {
    GatesShape();
    FreshIsEligibleIff(request.gateInputs.value);
    FirstRefusedGate(request.gateInputs.value, GATES, gate);
  }

  lemma FirstRefusedGate(inputs: GateInputs, all: seq<Gate>, gate: Gate)
    requires Enumerates(all) && !Judged(inputs, gate).passed && forall g :: Index(g) < Index(gate) ==> Judged(inputs, g).passed
    ensures FirstRefused(JudgeAll(inputs, all)) == Some(Judged(inputs, gate))
  {
    var rs := JudgeAll(inputs, all);
    assert forall j :: 0 <= j < Index(gate) ==> rs[j] == Judged(inputs, all[j]) && Index(all[j]) < Index(gate);
    FirstRefusedIs(rs, Index(gate));
  }

  /** The request may be answered with a class: decided for, still valid, and no organic claim without coverage. */
  predicate Issuable(request: Request) {
    && (request.decision == Alert || request.decision == Watch)
    && !(request.socialUnavailable && request.organicClaimed)
    && (request.now.Some? ==> request.now.value < request.validUntil)
  }

  /** Within the last five minutes of its validity. */
  predicate Closing(request: Request) {
    request.now.Some? && request.validUntil <= request.now.value + 300_000
  }

  predicate Calm(risk: RiskState) { risk == Unknown || risk == Low || risk == Medium }

  predicate Over(lifecycle: Lifecycle) { lifecycle == Archived || lifecycle == Rejected }

  /** What an update of a prior alert says. */
  lemma PriorClassIff(request: Request)
    requires Classify(request).Ok? && request.priorAlert && Issuable(request)
    ensures var route := Classify(request).value.route;
            && (route == Class(OpportunityExpired) <==> Closing(request) || (Calm(request.risk) && Over(request.lifecycle)))
            && (route == Class(RiskAlert) <==> !Closing(request) && !Calm(request.risk))
            && (route == Class(ThesisWeakening) <==> !Closing(request) && Calm(request.risk) && request.lifecycle == Decaying)
            && (route == Class(ThesisStrengthening) <==>
                  !Closing(request) && Calm(request.risk) && request.lifecycle in {Discovered, Qualified, Emerging, Confirmed, Monitoring})
  {
  }

  /** What a first alert says: over, at risk, as recommended, or an early watch; confirmed opportunities only through the gates. */
  lemma FirstClassIff(request: Request, expected: AlertClass)
    requires Classify(request).Ok? && !request.priorAlert && Issuable(request) && expected != ConfirmedOpportunity
    ensures Classify(request).value.route == Class(expected) <==>
            if Over(request.lifecycle) then expected == OpportunityExpired
            else if !Calm(request.risk) then expected == RiskAlert
            else match request.recommendation
                 case Some(recommended) => recommended == expected
                 case None => request.gateInputs.None? && expected == EarlyWatch
  {
    var resolved := ResolveGates(request).value;
    RouteConfirmedIff(request, resolved.0, resolved.1);
  }

  /** Nothing is issued exactly when the request is not issuable, or asks for a confirmed opportunity that some gate refuses. */
  lemma SuppressedIff(request: Request)
    requires Classify(request).Ok?
    ensures Classify(request).value.route.Suppress? <==>
            || !Issuable(request)
            || (&& ReachesGates(request) && request.recommendation in {None, Some(ConfirmedOpportunity)}
                && (request.recommendation.Some? || request.gateInputs.Some?)
                && (request.gateInputs.Some? ==> exists g :: !Judged(request.gateInputs.value, g).passed))
    ensures !Issuable(request) ==>
              Classify(request).value.route == Suppress(
                if request.socialUnavailable && request.organicClaimed then SocialUnavailableOrganicConfirmation
                else if request.decision in {Ignore, Reject, InsufficientData} then GateRefused
                else ExpiredActionability)
  {
    var resolved := ResolveGates(request).value;
    RouteConfirmedIff(request, resolved.0, resolved.1);
    if request.gateInputs.Some? {
      FreshIsEligibleIff(request.gateInputs.value);
    }
  }

  /** A gate passes exactly when the inputs have no unknown field, its own field is well formed, and its function says so. */
  lemma GatePassesIff(inputs: GateInputs, gate: Gate)
    ensures Judged(inputs, gate).passed <==> !inputs.unknownField && gate !in inputs.malformed && inputs.judge(gate) == Passes
    ensures forall reason :: Judged(inputs, gate).reason == Some(reason) <==>
              (if inputs.unknownField || gate in inputs.malformed then reason == GateRefused else inputs.judge(gate) == Refuses(reason))
  {
  }

  /** What an answer carries besides its route. */
  lemma AnswerCarries(request: Request)
    requires Classify(request).Ok?
    ensures var answer := Classify(request).value;
            && (answer.gateSetComplete <==> request.gateInputs.Some?)
            && (request.gateInputs.None? ==> answer.gates == request.gateResults)
            && (request.gateInputs.Some? ==>
                  && |answer.gates| == 14
                  && forall gate :: answer.gates[Index(gate)] == Judged(request.gateInputs.value, gate))
            && (answer.socialUnknown <==> request.socialUnavailable)
            && (answer.organicClaimed <==> answer.route.Class? && request.organicClaimed && !request.socialUnavailable)
  {
    if request.gateInputs.Some? {
      GatesShape();
      CarriesAll(request.gateInputs.value, GATES);
    }
  }

  lemma CarriesAll(inputs: GateInputs, all: seq<Gate>)
    requires Enumerates(all)
    ensures forall gate :: Index(gate) < |all| && JudgeAll(inputs, all)[Index(gate)] == Judged(inputs, gate)
  {
  }

  /** No class at all for a declined decision, an elapsed validity, or an organic claim without coverage. */
  lemma NeverIssuedWhen(request: Request)
    requires Classify(request).Ok?
    requires || Declined(request.decision)
             || (request.now.Some? && request.now.value >= request.validUntil)
             || (request.socialUnavailable && request.organicClaimed)
    ensures Classify(request).value.route.Suppress?
    ensures !Classify(request).value.organicClaimed
  {
  }
}
