/** What the validators of controls accept, and that assessment adds nothing they would refuse. */
module Validity {
  import opened Contracts
  import opened Selection
  import opened Requirements
  import opened Composition
  import opened Evaluator

  // ---- What the validators accept ------------------------------------------

  /** A block failure names a block route; a route failure may name any route. */
  predicate ValidFailure(f: Failure) {
    f.BlockFailure? ==> f.route.kind == BlockRoute
  }

  predicate ValidControlEffect(c: ControlEffect) {
    && (c.verdict == Block ==> c.route.kind == BlockRoute)
    && (c.verdict == RouteTo || c.verdict == RequireApproval ==> !DefaultRoute(c.route.kind))
    && (Permissive(c.verdict) ==> c.route.kind != BlockRoute)
  }

  predicate ValidEffect(e: Effect) {
    match e
    case Normal(c) => ValidControlEffect(c)
    case Failed(f) => ValidFailure(f)
  }

  function FailureOf(r: Requirement): Failure {
    match r
    case NeedsEvidence(e) => e.failure
    case NeedsApproval(a) => a.failure
    case NeedsProfile(p) => p.failure
  }

  /** Every failure a control can contribute. */
  ghost predicate AllFailures(c: Control, p: Failure -> bool) {
    && p(c.onUnknown)
    && (forall k :: 0 <= k < |c.effect.conditions| ==> p(c.effect.conditions[k].failure))
    && (forall k :: 0 <= k < |c.effect.requirements| ==> p(FailureOf(c.effect.requirements[k])))
  }

  ghost predicate ValidControl(c: Control) {
    ValidControlEffect(c.effect) && AllFailures(c, ValidFailure)
  }

  ghost predicate ValidControls(controls: seq<Control>) {
    forall c :: c in controls ==> ValidControl(c)
  }

  // ---- Assessment adds only what the controls may contribute ---------------

  /** All failures meet `p`, and retained profile outcomes are valid and no route failures of a default kind. */
  ghost predicate AssessmentMeets(a: Assessment, p: Failure -> bool) {
    && (forall f :: f in a.failures ==> p(f.failure))
    && forall e :: e in a.profileOutcomes ==> ValidEffect(e) && !RoutesToDefault(e)
  }

  /** A failure that routes to a default route. */
  predicate DefaultFailure(f: Failure) {
    f.RouteFailure? && DefaultRoute(f.route.kind)
  }

  predicate RoutesToDefault(e: Effect) {
    e.Failed? && DefaultFailure(e.failure)
  }

  lemma JoinMeets(a: Assessment, b: Assessment, p: Failure -> bool)
    requires AssessmentMeets(a, p) && AssessmentMeets(b, p)
    ensures AssessmentMeets(Join(a, b), p)
  {
  }

  lemma ApprovalMeets(r: ApprovalRequirement, ref: ControlRef, s: Situation, p: Failure -> bool)
    requires p(r.failure)
    ensures AssessmentMeets(AssessApproval(r, ref, s), p)
  {
    hide Matching, Independent, AnyDependent;
  }

  lemma ConditionMeets(c: Condition, ref: ControlRef, s: Situation, p: Failure -> bool)
    requires p(c.failure)
    ensures AssessmentMeets(AssessCondition(c, ref, s), p)
  {
    hide ConditionTruth;
  }

  lemma {:induction false} RetainMeets(facts: seq<ProfileFact>, p: Failure -> bool)
    requires RetainAll(facts).Ok?
    ensures AssessmentMeets(RetainAll(facts).value, p)
  {
    if facts != [] {
      RetainMeets(facts[1..], p);
    }
  }

  lemma RequirementMeets(r: Requirement, ref: ControlRef, s: Situation, p: Failure -> bool)
    requires p(FailureOf(r)) && AssessRequirement(r, ref, s).Ok?
    ensures AssessmentMeets(AssessRequirement(r, ref, s).value, p)
  {
    hide AssessApproval, RetainAll, MatchingProfiles, AllSatisfied;
    match r
    case NeedsEvidence(_) =>
    case NeedsApproval(a) => ApprovalMeets(a, ref, s, p);
    case NeedsProfile(q) =>
      var matching := MatchingProfiles(s.facts.profiles, q, ref, s);
      if RetainAll(matching).Ok? {
        RetainMeets(matching, p);
      }
  }

  lemma {:induction false} RequirementsMeet(rs: seq<Requirement>, ref: ControlRef, s: Situation, p: Failure -> bool)
    requires AssessRequirements(rs, ref, s).Ok? && forall k :: 0 <= k < |rs| ==> p(FailureOf(rs[k]))
    ensures AssessmentMeets(AssessRequirements(rs, ref, s).value, p)
  {
    hide AssessmentMeets, AssessRequirement, Join;
    if rs == [] {
      NothingMeets(p);
    } else {
      RequirementMeets(rs[0], ref, s, p);
      RequirementsMeet(rs[1..], ref, s, p);
      JoinMeets(AssessRequirement(rs[0], ref, s).value, AssessRequirements(rs[1..], ref, s).value, p);
    }
  }

  lemma {:induction false} ConditionsMeet(cs: seq<Condition>, ref: ControlRef, s: Situation, p: Failure -> bool)
    requires forall k :: 0 <= k < |cs| ==> p(cs[k].failure)
    ensures AssessmentMeets(AssessConditions(cs, ref, s), p)
  {
    hide AssessmentMeets, AssessCondition, Join;
    if cs == [] {
      NothingMeets(p);
    } else {
      ConditionMeets(cs[0], ref, s, p);
      ConditionsMeet(cs[1..], ref, s, p);
      JoinMeets(AssessCondition(cs[0], ref, s), AssessConditions(cs[1..], ref, s), p);
    }
  }

  lemma NothingMeets(p: Failure -> bool)
    ensures AssessmentMeets(NOTHING, p)
  {
  }

  lemma OutcomeMeets(o: Applied, s: Situation, p: Failure -> bool)
    requires AllFailures(o.control, p) && (o.outcome.Normal? ==> o.outcome.effect == o.control.effect)
    requires AssessOutcome(o, s).Ok?
    ensures AssessmentMeets(AssessOutcome(o, s).value, p)
  {
    hide AssessmentMeets, AssessConditions, AssessRequirements, Join;
    match o.outcome
    case Failed(_) => NothingMeets(p);
    case Normal(effect) =>
      ConditionsMeet(effect.conditions, o.ref, s, p);
      RequirementsMeet(effect.requirements, o.ref, s, p);
      JoinMeets(AssessConditions(effect.conditions, o.ref, s),
                AssessRequirements(effect.requirements, o.ref, s).value, p);
  }

  lemma {:induction false} OutcomesMeet(os: seq<Applied>, s: Situation, p: Failure -> bool)
    requires AssessOutcomes(os, s).Ok?
    requires forall o :: o in os ==> AllFailures(o.control, p)
                                     && (o.outcome.Normal? ==> o.outcome.effect == o.control.effect)
    ensures AssessmentMeets(AssessOutcomes(os, s).value, p)
  {
    hide AssessmentMeets, AllFailures, AssessOutcome, Join;
    if os == [] {
      NothingMeets(p);
    } else {
      OutcomeMeets(os[0], s, p);
      OutcomesMeet(os[1..], s, p);
      JoinMeets(AssessOutcome(os[0], s).value, AssessOutcomes(os[1..], s).value, p);
    }
  }

  /** Each outcome is its control's effect or its unknown failure. */
  predicate FromControl(o: Applied) {
    o.outcome == Normal(o.control.effect) || o.outcome == Failed(o.control.onUnknown)
  }

  lemma ValuesMeet(os: seq<Applied>, s: Situation, p: Failure -> bool)
    requires Assess(os, s).Ok? && (forall o :: o in os ==> FromControl(o) && ValidControlEffect(o.control.effect))
    requires forall o :: o in os ==> AllFailures(o.control, p)
    ensures forall e :: e in Values(os, Assess(os, s).value) ==>
              && (e.Normal? ==> ValidEffect(e))
              && (e.Failed? ==> p(e.failure) || (ValidEffect(e) && !RoutesToDefault(e)))
  {
    hide AllFailures, AssessOutcomes, FactsVerified, ValidControlEffect;
    var a := Assess(os, s).value;
    assert AssessmentMeets(a, p) by {
      OutcomesMeet(os, s, p);
    }
    OutcomesMembers(os);
    FailureEffectsMembers(a.failures);
    forall o | o in os
      ensures p(o.control.onUnknown)
    {
      UnknownIncluded(o.control, p);
    }
  }

  lemma UnknownIncluded(c: Control, p: Failure -> bool)
    requires AllFailures(c, p)
    ensures p(c.onUnknown)
  {
  }

  /** What selection returns comes from controls of the snapshot. */
  lemma SelectedFromControls(e: Evaluator, i: ActionIntent, s: Snapshot)
    requires SelectControls(i, s, e.canon).Ok?
    ensures forall o :: o in SelectControls(i, s, e.canon).value ==> FromControl(o) && o.control in s.controls
  {
    hide Selected, Settled, SelectControls, ResultsOf;
    SelectedExactly(i, s, e.canon);
  }

  lemma AllValuesValid(e: Evaluator, i: ActionIntent, s: Snapshot, facts: EvaluationFacts)
    requires ValidControls(s.controls) && SelectControls(i, s, e.canon).Ok?
    requires Assess(SelectControls(i, s, e.canon).value, Situation(i, s, facts, e.registry)).Ok?
    ensures var os := SelectControls(i, s, e.canon).value;
            forall v :: v in Values(os, Assess(os, Situation(i, s, facts, e.registry)).value) ==> ValidEffect(v)
  {
    hide SelectControls, Assess, Values, AllFailures, FromControl, ValidControlEffect;
    SelectedFromControls(e, i, s);
    ValuesMeet(SelectControls(i, s, e.canon).value, Situation(i, s, facts, e.registry), ValidFailure);
  }
}
