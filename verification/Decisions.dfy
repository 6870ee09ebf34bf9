/** What a decision says, read off the controls, the intent and the facts. */
module Decisions {
  import opened Wrappers
  import opened Contracts
  import opened Ordering
  import opened Selection
  import opened Requirements
  import opened Composition
  import opened Contributions
  import opened Evaluator

  // ---- Verdict and route ---------------------------------------------------

  /** The contribution speaks for this verdict: by its effect, or by the kind of its failure. */
  predicate Says(v: Effect, verdict: Verdict) {
    match v
    case Normal(e) => e.verdict == verdict
    case Failed(BlockFailure(_, _)) => verdict == Block
    case Failed(RouteFailure(_, _)) => verdict == RouteTo
    case Failed(ApprovalFailure(_)) => verdict == RequireApproval
  }

  /** The contribution names this route; an approval failure names none. */
  predicate On(v: Effect, r: Route) {
    match v
    case Normal(e) => e.route == r
    case Failed(BlockFailure(route, _)) => route == r
    case Failed(RouteFailure(route, _)) => route == r
    case Failed(ApprovalFailure(_)) => false
  }

  ghost predicate Spoken(s: Situation, verdict: Verdict) {
    exists v :: Contributes(s, v) && Says(v, verdict)
  }

  /** A route some contribution names for this verdict. */
  ghost predicate Offered(s: Situation, verdict: Verdict, r: Route) {
    exists v :: Contributes(s, v) && Says(v, verdict) && On(v, r)
  }

  /** The route of an effect, not of a failure. */
  ghost predicate Base(s: Situation, r: Route) {
    exists v :: Contributes(s, v) && v.Normal? && v.effect.route == r
  }

  ghost predicate AnySelected(s: Situation) {
    exists c :: c in s.snapshot.controls && Selected(c, s.intent, s.snapshot.observedAt)
  }

  ghost predicate RoutesDisagree(s: Situation) {
    exists r, r' :: Offered(s, RouteTo, r) && Offered(s, RouteTo, r') && r != r'
  }

  /** Without a selected control, with an approver who is not apart, or with one voice for it, block; then two different
      mandatory routes, one, approval, conditions, and last allow. */
  ghost function RightVerdict(s: Situation): Verdict {
    if !AnySelected(s) || SomeDependent(s) || Spoken(s, Block) then Block
    else if RoutesDisagree(s) then Conflict
    else if Spoken(s, RouteTo) then RouteTo
    else if Spoken(s, RequireApproval) then RequireApproval
    else if Spoken(s, AllowWithConditions) then AllowWithConditions
    else Allow
  }

  const FAIL_CLOSED := Route("controlspec.core", "fail-closed-block", BlockRoute, None, map[], false)
  const CONFLICT_BLOCK := Route("controlspec.core", "conflict-block", BlockRoute, None, map[], false)

  ghost predicate Candidate(s: Situation, verdict: Verdict, r: Route) {
    match verdict
    case Block => Offered(s, Block, r) || (SomeDependent(s) && r == FAIL_CLOSED)
    case RouteTo => Offered(s, RouteTo, r)
    case _ => Base(s, r)
  }

  /** The canonically first candidate; the fail-closed route where there is none, the conflict route where routes
      conflict. */
  ghost predicate RightRoute(s: Situation, canon: Canon, verdict: Verdict, route: Route) {
    if verdict == Conflict then route == CONFLICT_BLOCK
    else if exists r :: Candidate(s, verdict, r) then
      Candidate(s, verdict, route)
      && forall r :: Candidate(s, verdict, r) ==> !Less(canon.route(r), canon.route(route))
    else route == FAIL_CLOSED
  }

  function VerdictCode(verdict: Verdict, dependent: bool): string {
    match verdict
    case Block =>
      if dependent then "controlspec.core.approval.independence_failed" else "controlspec.core.explicit_block"
    case Conflict => "controlspec.core.route.conflict"
    case RouteTo => "controlspec.core.route.required"
    case RequireApproval => "controlspec.core.approval.required"
    case AllowWithConditions => "controlspec.core.allow_with_conditions"
    case Allow => "controlspec.core.allow"
  }

  // ---- The assessment, control by control ----------------------------------

  lemma Collected(e: Evaluator, s: Situation)
    requires e.registry == s.registry && SelectControls(s.intent, s.snapshot, e.canon).Ok?
    requires Assess(SelectControls(s.intent, s.snapshot, e.canon).value, s).Ok?
    ensures Collects(Assess(SelectControls(s.intent, s.snapshot, e.canon).value, s).value, s)
  {
    hide SelectControls, AssessOutcomes, Selected, Settled, ReferenceOf, ResultsOf, FactsVerified, Added;
    hide ConditionHolds, Adds, Demands, Asks, Explains, Dependent, Notes;
    var os := SelectControls(s.intent, s.snapshot, e.canon).value;
    SelectedExactly(s.intent, s.snapshot, e.canon);
    OutcomesContents(os, s);
    forall c, r | Requires(c, r, s)
      ensures Contributed(c, s.intent) in os && IsRequired(Contributed(c, s.intent), r)
    {
    }
    forall c, k | Conditions(c, k, s)
      ensures Contributed(c, s.intent) in os && IsConditioned(Contributed(c, s.intent), k)
    {
    }
    forall o, r | o in os && IsRequired(o, r)
      ensures Requires(o.control, r, s) && o.ref == ReferenceOf(o.control)
    {
    }
    forall o, k | o in os && IsConditioned(o, k)
      ensures Conditions(o.control, k, s)
    {
    }
  }

  /** The values the verdict is composed from are what the selected controls contribute. */
  lemma ValuesContribute(e: Evaluator, s: Situation)
    requires e.registry == s.registry && SelectControls(s.intent, s.snapshot, e.canon).Ok?
    requires Assess(SelectControls(s.intent, s.snapshot, e.canon).value, s).Ok?
    ensures var os := SelectControls(s.intent, s.snapshot, e.canon).value;
            forall v :: v in Values(os, Assess(os, s).value) <==> Contributes(s, v)
  {
    hide SelectControls, Assess, Selected, Settled, ReferenceOf, ResultsOf, ConditionHolds, Adds, Conditions, Requires;
    var os := SelectControls(s.intent, s.snapshot, e.canon).value;
    var a := Assess(os, s).value;
    Collected(e, s);
    SelectedExactly(s.intent, s.snapshot, e.canon);
    OutcomesMembers(os);
    forall c | Applies(c, s) || Unknowable(c, s)
      ensures Contributed(c, s.intent) in os
    {
    }
    forall v
      ensures v in Outcomes(os)
              <==> (exists c :: Unknowable(c, s) && v == Failed(c.onUnknown))
                   || (exists c :: Applies(c, s) && v == Normal(c.effect))
    {
      if v in Outcomes(os) {
        var o :| o in os && o.outcome == v;
        assert Applies(o.control, s) || Unknowable(o.control, s);
      }
    }
    assert forall v :: v in Values(os, a) <==> v in Outcomes(os) || v in Added(a);
  }

  lemma SaysIff(v: Effect)
    ensures forall verdict :: Says(v, verdict) <==> EffectVerdictOf(v) == verdict
    ensures forall r :: On(v, r) <==> EffectRoute(v) == Some(r)
  {
  }

  // ---- The first of the candidates -----------------------------------------

  lemma FirstIsLeast<T(!new)>(xs: seq<T>, key: T -> string)
    requires Injective(key) && xs != []
    ensures Unique(xs, key)[0] in xs && forall x :: x in xs ==> !Less(key(x), key(Unique(xs, key)[0]))
  {
    hide Unique, Less;
    UniqueSpec(xs, key);
    var us := Unique(xs, key);
    assert us[0] in us;
    forall x | x in xs
      ensures !Less(key(x), key(us[0]))
    {
      assert x in us;
      var k :| 0 <= k < |us| && us[k] == x;
      if k == 0 {
        LessIrreflexive(key(x));
      } else {
        LessAsymmetric(key(us[0]), key(x));
      }
    }
  }

  lemma SeveralRoutes(xs: seq<Route>, key: Route -> string)
    requires Injective(key)
    ensures |Unique(xs, key)| > 1 <==> exists r, r' :: r in xs && r' in xs && r != r'
  {
    hide Unique, Less;
    UniqueSpec(xs, key);
    var us := Unique(xs, key);
    if |us| > 1 {
      assert us[0] in us && us[1] in us && Less(key(us[0]), key(us[1]));
      LessIrreflexive(key(us[0]));
    }
    if r, r' :| r in xs && r' in xs && r != r' {
      assert r in us && r' in us;
      var j :| 0 <= j < |us| && us[j] == r;
      var k :| 0 <= k < |us| && us[k] == r';
    }
  }

  /** The values of a nonempty selection, seen as voices and routes. */
  ghost predicate Voices(s: Situation, values: seq<Effect>) {
    && (forall verdict :: HasVerdict(values, verdict) <==> Spoken(s, verdict))
    && (forall verdict, r :: r in RoutesOf(values, verdict) <==> Offered(s, verdict, r))
    && (forall r :: r in BaseRoutes(values) <==> Base(s, r))
  }

  lemma ValuesSpeak(s: Situation, values: seq<Effect>)
    requires forall v :: v in values <==> Contributes(s, v)
    ensures Voices(s, values)
  {
    hide HasVerdict, RoutesOf, BaseRoutes, Says, On, Contributes, EffectVerdictOf, EffectRoute;
    forall v: Effect
      ensures forall verdict :: Says(v, verdict) <==> EffectVerdictOf(v) == verdict
      ensures forall r :: On(v, r) <==> EffectRoute(v) == Some(r)
    {
      SaysIff(v);
    }
    forall verdict
      ensures HasVerdict(values, verdict) <==> Spoken(s, verdict)
    {
      VerdictMembers(values, verdict);
    }
    forall verdict
      ensures forall r :: r in RoutesOf(values, verdict) <==> Offered(s, verdict, r)
    {
      RoutesOfMembers(values, verdict);
    }
    forall r
      ensures r in BaseRoutes(values) <==> Base(s, r)
    {
      BaseRoutesMembers(values);
    }
  }

  lemma VerdictMembers(values: seq<Effect>, verdict: Verdict)
    ensures HasVerdict(values, verdict) <==> exists v :: v in values && EffectVerdictOf(v) == verdict
  {
    if v :| v in values && EffectVerdictOf(v) == verdict {
      var k :| 0 <= k < |values| && values[k] == v;
    }
  }

  /** Verdict, route and code of a nonempty selection. */
  lemma RulingIsRight(s: Situation, os: seq<Applied>, a: Assessment, canon: Canon)
    requires os != [] && AnySelected(s) && canon.Faithful() && Voices(s, Values(os, a))
    requires a.independenceFailed == SomeDependent(s)
    ensures var ruling := Rule(os, a, canon);
            && ruling.verdict == RightVerdict(s)
            && RightRoute(s, canon, ruling.verdict, ruling.route)
            && ruling.code == VerdictCode(ruling.verdict, SomeDependent(s))
  {
    hide Values, RoutesOf, BaseRoutes, HasVerdict, Unique, Less, Spoken, Offered, Base, SomeDependent, AnySelected;
    hide RightRoute;
    var values := Values(os, a);
    var block, routes, base := BlockRoutes(values, a), RoutesOf(values, RouteTo), BaseRoutes(values);
    RoutedVerdict(values, Block);
    RoutedVerdict(values, RouteTo);
    UniqueEmptiness(routes, canon.route);
    UniqueEmptiness(base, canon.route);
    SeveralRoutes(routes, canon.route);
    assert forall r :: r in block <==> Candidate(s, Block, r);
    var ruling := Rule(os, a, canon);
    if block == [] && routes == [] && !HasVerdict(values, RequireApproval) {
      PermissiveHasBase(os, a);
    }
    if ruling.verdict != Conflict {
      RouteFromCandidates(s, canon, ruling.verdict,
                          if block != [] then block else if routes != [] then routes else base,
                          ruling.route);
    } else {
      ConflictRoute(s, canon);
    }
  }

  lemma ConflictRoute(s: Situation, canon: Canon)
    ensures RightRoute(s, canon, Conflict, SafetyRoute(true))
  {
  }

  lemma RouteFromCandidates(s: Situation, canon: Canon, verdict: Verdict, xs: seq<Route>, route: Route)
    requires verdict != Conflict && Injective(canon.route)
    requires forall r :: r in xs <==> Candidate(s, verdict, r)
    requires route == if xs == [] then SafetyRoute(false) else Unique(xs, canon.route)[0]
    ensures RightRoute(s, canon, verdict, route)
  {
    hide Candidate, Unique, Less;
    if xs != [] {
      FirstIsLeast(xs, canon.route);
      assert xs[0] in xs;
    }
  }

  // ---- The decision --------------------------------------------------------

  /** The verdict of a decision is the right one, its route is the right one for it, and whether it asks for a recheck
      follows from the two. */
  lemma DecidesRightly(e: Evaluator, i: ActionIntent, s: Snapshot, facts: EvaluationFacts)
    requires Evaluate(e, i, s, facts).Ok? && e.canon.Faithful()
    ensures var d := Evaluate(e, i, s, facts).value;
            var situation := Situation(i, s, facts, e.registry);
            && d.verdict == RightVerdict(situation)
            && RightRoute(situation, e.canon, d.verdict, d.route)
            && (d.requiresRecheck
                <==> d.verdict == RequireApproval || d.verdict == RouteTo || d.route.requiresRecheck)
  {
    hide SelectControls, Assess, Rule, Unique, DecisionWellFormed, BuildDecision, Values, Voices, RightVerdict;
    hide RightRoute, Codes, Distinct, TraceOf, Selected, Contributes;
    var situation := Situation(i, s, facts, e.registry);
    var os := SelectControls(i, s, e.canon).value;
    var a := Assess(os, situation).value;
    SelectionNonempty(e, situation);
    BuiltContents(e, i, s, facts, Compose(os, a, e.canon));
    ValuesContribute(e, situation);
    Collected(e, situation);
    ValuesSpeak(situation, Values(os, a));
    if os == [] {
      NothingSelected(situation, e.canon);
    } else {
      RulingIsRight(situation, os, a, e.canon);
    }
  }

  lemma BuiltContents(e: Evaluator, i: ActionIntent, s: Snapshot, facts: EvaluationFacts, c: Composed)
    requires i.intentDigest.Some? && s.digest.Some?
    ensures var d := BuildDecision(e, i, s, facts, c);
            && d.verdict == c.verdict && d.route == c.route && d.requiresRecheck == c.requiresRecheck
            && d.conditions == c.conditions && d.approvalRequirements == c.approvals && d.requiredEvidence == c.evidence
            && d.appliedControls == c.applied && d.codes == c.codes
  {
  }

  lemma SelectionNonempty(e: Evaluator, s: Situation)
    requires SelectControls(s.intent, s.snapshot, e.canon).Ok?
    ensures s.snapshot.digest.Some?
    ensures SelectControls(s.intent, s.snapshot, e.canon).value != [] <==> AnySelected(s)
  {
    hide SelectFrom, ControlsError, Selected, Contributed;
    var os := SelectControls(s.intent, s.snapshot, e.canon).value;
    SelectedExactly(s.intent, s.snapshot, e.canon);
    if os != [] {
      assert os[0] in os;
    }
    if c :| c in s.snapshot.controls && Selected(c, s.intent, s.snapshot.observedAt) {
      ContributedControl(c, s.intent);
      assert Contributed(c, s.intent) in os;
    }
  }

  lemma ContributedControl(c: Control, i: ActionIntent)
    ensures Contributed(c, i).control == c && Contributed(c, i).ref == ReferenceOf(c)
  {
  }

  lemma NothingSelected(s: Situation, canon: Canon)
    requires !AnySelected(s)
    ensures RightVerdict(s) == Block && RightRoute(s, canon, Block, SafetyRoute(false))
  {
    hide Selected, Settled, Adds, Dependent, ConditionHolds;
    assert forall c :: !Applies(c, s) && !Unknowable(c, s);
    assert forall v :: !Contributes(s, v);
    assert !SomeDependent(s);
  }

  // ---- The lists of a decision ---------------------------------------------

  /** The lists of a decision hold, each in canonical order and without repetition: the evidence and approvals that
      requirements of controls whose effect applies demand or that profile facts retain, the result of every condition
      of those controls, and the selected controls themselves. */
  lemma DecisionLists(e: Evaluator, i: ActionIntent, s: Snapshot, facts: EvaluationFacts)
    requires Evaluate(e, i, s, facts).Ok? && e.canon.Faithful()
    ensures var d := Evaluate(e, i, s, facts).value;
            var situation := Situation(i, s, facts, e.registry);
            && (forall x :: x in d.requiredEvidence
                  <==> exists c, r :: Requires(c, r, situation) && Demands(r, ReferenceOf(c), situation, x))
            && (forall x :: x in d.approvalRequirements
                  <==> exists c, r :: Requires(c, r, situation) && Asks(r, ReferenceOf(c), situation, x))
            && (forall x :: x in d.conditions
                  <==> exists c, k :: Conditions(c, k, situation) && Notes(k, situation, x))
            && (forall x :: x in d.appliedControls
                  <==> exists c :: c in s.controls && Selected(c, i, s.observedAt) && Refers(x, c))
            && StrictlySorted(d.requiredEvidence, e.canon.evidence)
            && StrictlySorted(d.approvalRequirements, e.canon.approval)
            && StrictlySorted(d.conditions, e.canon.condition)
            && StrictlySorted(d.appliedControls, e.canon.control)
  {
    hide SelectControls, Assess, Rule, Unique, DecisionWellFormed, BuildDecision, Codes, Distinct, TraceOf, Selected;
    hide Refers, Demands, Asks, Notes, Requires, Conditions, ReferenceOf, Refs, StrictlySorted, Added, Explains, Adds;
    var situation := Situation(i, s, facts, e.registry);
    var os := SelectControls(i, s, e.canon).value;
    var a := Assess(os, situation).value;
    SelectionNonempty(e, situation);
    BuiltContents(e, i, s, facts, Compose(os, a, e.canon));
    Collected(e, situation);
    UniqueSpec(a.evidence, e.canon.evidence);
    UniqueSpec(a.approvals, e.canon.approval);
    UniqueSpec(a.conditions, e.canon.condition);
    UniqueSpec(Refs(os), e.canon.control);
    AppliedMembers(e, situation);
    if os == [] {
      NothingRequired(situation);
      NothingSorted(e.canon);
    }
  }

  lemma NothingRequired(s: Situation)
    requires !AnySelected(s)
    ensures forall c, r :: !Requires(c, r, s)
    ensures forall c, k :: !Conditions(c, k, s)
  {
    hide Selected, Settled;
  }

  lemma NothingSorted(canon: Canon)
    ensures StrictlySorted([], canon.evidence) && StrictlySorted([], canon.approval)
    ensures StrictlySorted([], canon.condition) && StrictlySorted([], canon.control)
  {
  }

  lemma AppliedMembers(e: Evaluator, s: Situation)
    requires SelectControls(s.intent, s.snapshot, e.canon).Ok?
    ensures forall x :: x in Refs(SelectControls(s.intent, s.snapshot, e.canon).value)
              <==> exists c :: c in s.snapshot.controls && Selected(c, s.intent, s.snapshot.observedAt)
                               && Refers(x, c)
  {
    hide SelectControls, Selected, ReferenceOf, Contributed, Refers;
    var os := SelectControls(s.intent, s.snapshot, e.canon).value;
    SelectedExactly(s.intent, s.snapshot, e.canon);
    RefsMembers(os);
    forall c: Control
      ensures Contributed(c, s.intent).control == c && Contributed(c, s.intent).ref == ReferenceOf(c)
    {
      ContributedControl(c, s.intent);
    }
    forall c, x
      ensures x == ReferenceOf(c) <==> Refers(x, c)
    {
      RefersIff(x, c);
    }
    forall c | c in s.snapshot.controls && Selected(c, s.intent, s.snapshot.observedAt)
      ensures ReferenceOf(c) in Refs(os)
    {
      assert Contributed(c, s.intent) in os;
    }
  }

  /** The codes of a decision: of each selected control, of what its requirements and conditions add, and of the
      verdict. */
  ghost predicate Coded(s: Situation, verdict: Verdict, x: string) {
    if !AnySelected(s) then x == "controlspec.core.no_applicable_published_control"
    else
      || (exists c :: Applies(c, s) && x == c.effect.code)
      || (exists c :: Unknowable(c, s) && x == c.onUnknown.code)
      || (exists c, k :: Conditions(c, k, s) && !ConditionHolds(k, s) && x == k.failure.code)
      || (exists c, r :: Requires(c, r, s) && Explains(r, ReferenceOf(c), s, x))
      || x == VerdictCode(verdict, SomeDependent(s))
  }

  lemma DecisionCodes(e: Evaluator, i: ActionIntent, s: Snapshot, facts: EvaluationFacts)
    requires Evaluate(e, i, s, facts).Ok? && e.canon.Faithful()
    ensures var d := Evaluate(e, i, s, facts).value;
            var situation := Situation(i, s, facts, e.registry);
            && (forall x :: x in d.codes <==> Coded(situation, d.verdict, x))
            && StrictlySorted(d.codes, Itself)
  {
    hide SelectControls, Assess, Rule, Unique, DecisionWellFormed, BuildDecision, Codes, Distinct, TraceOf, Selected;
    hide Requires, Conditions, ReferenceOf, Refs, StrictlySorted, Explains, Values, Voices, RightVerdict, RightRoute;
    hide Contributes, ConditionHolds, Coded, VerdictCode;
    var situation := Situation(i, s, facts, e.registry);
    var os := SelectControls(i, s, e.canon).value;
    var a := Assess(os, situation).value;
    SelectionNonempty(e, situation);
    BuiltContents(e, i, s, facts, Compose(os, a, e.canon));
    if os == [] {
      OnlyCode(situation);
    } else {
      ValuesContribute(e, situation);
      Collected(e, situation);
      ValuesSpeak(situation, Values(os, a));
      RulingIsRight(situation, os, a, e.canon);
      UniqueSpec(Codes(os) + a.codes + [Rule(os, a, e.canon).code], Itself);
      CodesSpoken(e, situation);
    }
  }

  lemma OnlyCode(s: Situation)
    requires !AnySelected(s)
    ensures forall x :: Coded(s, Block, x) <==> x in [NO_APPLICABLE_CODE]
    ensures StrictlySorted([NO_APPLICABLE_CODE], Itself)
  {
    hide AnySelected;
  }

  lemma OutcomeCodes(e: Evaluator, s: Situation)
    requires SelectControls(s.intent, s.snapshot, e.canon).Ok?
    ensures forall x :: x in Codes(SelectControls(s.intent, s.snapshot, e.canon).value)
              <==> || (exists c :: Applies(c, s) && x == c.effect.code)
                   || (exists c :: Unknowable(c, s) && x == c.onUnknown.code)
  {
    hide SelectControls, Selected, Settled, ReferenceOf, ResultsOf;
    var os := SelectControls(s.intent, s.snapshot, e.canon).value;
    SelectedExactly(s.intent, s.snapshot, e.canon);
    CodesMembers(os);
    forall c | Applies(c, s) || Unknowable(c, s)
      ensures Contributed(c, s.intent) in os
    {
    }
    forall x | x in Codes(os)
      ensures || (exists c :: Applies(c, s) && x == c.effect.code)
              || (exists c :: Unknowable(c, s) && x == c.onUnknown.code)
    {
      var o :| o in os && EffectCode(o.outcome) == x;
      assert Applies(o.control, s) || Unknowable(o.control, s);
    }
  }

  lemma CodesSpoken(e: Evaluator, s: Situation)
    requires e.registry == s.registry && SelectControls(s.intent, s.snapshot, e.canon).Ok? && AnySelected(s)
    requires Assess(SelectControls(s.intent, s.snapshot, e.canon).value, s).Ok?
    ensures var os := SelectControls(s.intent, s.snapshot, e.canon).value;
            forall verdict, x :: x in Codes(os) + Assess(os, s).value.codes + [VerdictCode(verdict, SomeDependent(s))]
              <==> Coded(s, verdict, x)
  {
    hide SelectControls, Assess, Applies, Unknowable, ConditionHolds, Explains, Conditions, Codes, Added;
    hide Requires, VerdictCode, SomeDependent, AnySelected, Adds, Notes, Demands, Asks;
    Collected(e, s);
    OutcomeCodes(e, s);
  }

  /** A decision names the actor, action and resource of its intent, its exact context and content, and the exact set of
      controls it applies; its identity covers what it rests on and what it says. */
  lemma DecisionNames(e: Evaluator, i: ActionIntent, s: Snapshot, facts: EvaluationFacts)
    requires Evaluate(e, i, s, facts).Ok?
    ensures i.intentDigest.Some? && s.digest.Some?
    ensures var d := Evaluate(e, i, s, facts).value;
            && d.ns == i.ns && (d.conformance <==> s.mode == NonAuthoritative)
            && d.binding.actorNs == i.actor.ns && d.binding.actorId == i.actor.actorId
            && d.binding.actorVersion == i.actor.version
            && d.binding.actionType == i.action.actionType && d.binding.domainAction == i.action.domainAction
            && d.binding.resourceNs == i.resource.ns && d.binding.resourceId == i.resource.resourceId
            && d.binding.resourceVersion == i.resource.version && d.binding.resourceType == i.resource.resourceType
            && d.binding.contextDigest == i.contextDigest && d.binding.intentDigest == i.intentDigest.value
            && d.binding.controlSetDigest == OfControlRefs(d.appliedControls)
            && d.decisionId == Hashed("decision-", OfEnvelope(
                 DecisionEnvelope(d.intentRef, s.digest.value, OfFacts(facts), d.appliedControls, d.verdict, d.route,
                                  d.evaluatedAt)))
  {
    hide SelectControls, Assess, Compose, DecisionWellFormed;
    DecisionBinds(e, i, s, facts);
  }
}
