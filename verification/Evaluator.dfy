/** The deterministic evaluator: selection, assessment and composition bound into one decision. */
module Evaluator {
  import opened Wrappers
  import opened Contracts
  import opened Ordering
  import opened Predicates
  import opened Selection
  import opened Requirements
  import opened Composition

  const MICROS_PER_SECOND := 1_000_000

  datatype Evaluator = Evaluator(registry: set<string>, ttlSeconds: nat, canon: Canon)

  function IntentRefOf(i: ActionIntent): IntentRef
    requires i.intentDigest.Some?
  {
    IntentRef(i.ns, i.intentId, i.intentDigest.value)
  }

  /** What a decision must satisfy to be constructed at all. */
  predicate DecisionWellFormed(d: Decision) {
    && d.expiresAt > d.evaluatedAt
    && (Permissive(d.verdict) ==> d.appliedControls != [])
    && (d.verdict == Block || d.verdict == Conflict ==> d.route.kind == BlockRoute)
    && (d.verdict == RouteTo ==> !DefaultRoute(d.route.kind))
    && (Permissive(d.verdict) ==> d.route.kind != BlockRoute)
  }

  function BuildDecision(e: Evaluator, i: ActionIntent, s: Snapshot, facts: EvaluationFacts, c: Composed): Decision
    requires i.intentDigest.Some? && s.digest.Some?
  {
    var envelope := DecisionEnvelope(IntentRefOf(i), s.digest.value, OfFacts(facts), c.applied, c.verdict, c.route,
                                     s.observedAt);
    FinalizeDecision(
      Decision(i.ns, Hashed("decision-", OfEnvelope(envelope)), IntentRefOf(i), s.observedAt,
               s.observedAt + e.ttlSeconds * MICROS_PER_SECOND, facts.basis, c.verdict, c.route, c.conditions,
               c.approvals, c.evidence, c.applied, c.codes,
               Binding(i.actor.ns, i.actor.actorId, i.actor.version, i.action.actionType, i.action.domainAction,
                       i.resource.ns, i.resource.resourceId, i.resource.version, i.resource.resourceType,
                       i.contextDigest, i.intentDigest.value, OfControlRefs(c.applied)),
               c.requiresRecheck, s.mode == NonAuthoritative, None))
  }

  /** What the trace records of one selected control. */
  datatype TraceEntry = TraceEntry(ref: ControlRef, unknown: bool, results: seq<PredicateResult>, code: string)

  function EntryOf(o: Applied): TraceEntry { TraceEntry(o.ref, o.unknown, o.results, EffectCode(o.outcome)) }

  function TraceOf(os: seq<Applied>): seq<TraceEntry> {
    seq(|os|, i requires 0 <= i < |os| => EntryOf(os[i]))
  }

  /** A decision without its trace is not returned, and a trace refuses to hold one entry twice. */
  function Evaluate(e: Evaluator, i: ActionIntent, s: Snapshot, facts: EvaluationFacts)
    : Result<Decision, EvaluationError>
  {
    if !VerifiedIntent(i) then Err(IntentDigestInvalid)
    else
      match SelectControls(i, s, e.canon)
      case Err(error) => Err(error)
      case Ok(selected) =>
        match Assess(selected, Situation(i, s, facts, e.registry))
        case Err(error) => Err(error)
        case Ok(assessment) =>
          var d := BuildDecision(e, i, s, facts, Compose(selected, assessment, e.canon));
          if !DecisionWellFormed(d) then Err(DecisionInvalid)
          else if !Distinct(TraceOf(selected)) then Err(TraceInvalid)
          else Ok(d)
  }

  function DecisionRefOf(d: Decision): DecisionRef
    requires d.digest.Some?
  {
    DecisionRef(d.ns, d.decisionId, d.digest.value)
  }

  /** The last step of an evaluation whose earlier steps are known. */
  lemma EvaluateSteps(e: Evaluator, i: ActionIntent, s: Snapshot, facts: EvaluationFacts, os: seq<Applied>,
                      a: Assessment)
    requires VerifiedIntent(i) && s.digest.Some? && SelectControls(i, s, e.canon) == Ok(os)
    requires Assess(os, Situation(i, s, facts, e.registry)) == Ok(a)
    ensures var d := BuildDecision(e, i, s, facts, Compose(os, a, e.canon));
            Evaluate(e, i, s, facts)
            == if !DecisionWellFormed(d) then Err(DecisionInvalid)
               else if !Distinct(TraceOf(os)) then Err(TraceInvalid) else Ok(d)
  {
    hide SelectControls, Assess, Compose, BuildDecision, DecisionWellFormed;
  }

  lemma BuiltFields(e: Evaluator, i: ActionIntent, s: Snapshot, facts: EvaluationFacts, c: Composed)
    requires i.intentDigest.Some? && s.digest.Some?
    ensures var d := BuildDecision(e, i, s, facts, c);
            && d.verdict == c.verdict && d.route == c.route && d.approvalRequirements == c.approvals
            && d.appliedControls == c.applied && d.evaluatedAt == s.observedAt
            && d.expiresAt == s.observedAt + e.ttlSeconds * MICROS_PER_SECOND
  {
  }

  /** What any decision the evaluator returns is bound to. */
  lemma DecisionBinds(e: Evaluator, i: ActionIntent, s: Snapshot, facts: EvaluationFacts)
    requires Evaluate(e, i, s, facts).Ok?
    ensures VerifiedIntent(i) && VerifiedSnapshot(s)
    ensures var d := Evaluate(e, i, s, facts).value;
            && VerifiedDecision(d)
            && d.intentRef == IntentRefOf(i)
            && d.binding.intentDigest == i.intentDigest.value
            && d.binding.contextDigest == i.contextDigest
            && d.decisionId.Hashed? && d.decisionId.digest.OfEnvelope?
            && d.decisionId.digest.envelope.snapshotDigest == OfSnapshot(s.(digest := None))
            && d.decisionId.digest.envelope.factsDigest == OfFacts(facts)
            && d.evaluatedAt == s.observedAt
            && d.expiresAt == s.observedAt + e.ttlSeconds * MICROS_PER_SECOND
            && d.predecessor == facts.basis
            && (d.conformance <==> s.mode == NonAuthoritative)
  {
    hide Assess, Compose, SelectFrom, DecisionWellFormed, ControlsError;
  }

  lemma SameIntent(a: ActionIntent, b: ActionIntent)
    requires VerifiedIntent(a) && VerifiedIntent(b) && a.intentDigest == b.intentDigest
    ensures a == b
  {
    assert a == a.(intentDigest := None).(intentDigest := a.intentDigest);
    assert b == b.(intentDigest := None).(intentDigest := b.intentDigest);
  }

  lemma SameSnapshot(a: Snapshot, b: Snapshot)
    requires VerifiedSnapshot(a) && VerifiedSnapshot(b) && a.(digest := None) == b.(digest := None)
    ensures a == b
  {
    assert a == a.(digest := None).(digest := a.digest);
    assert b == b.(digest := None).(digest := b.digest);
  }

  /** Equal decisions come from equal inputs: a decision binds the exact intent, snapshot and facts. */
  lemma EqualDecisionsEqualInputs(e: Evaluator, i: ActionIntent, s: Snapshot, facts: EvaluationFacts,
                                  e': Evaluator, i': ActionIntent, s': Snapshot, facts': EvaluationFacts)
    requires Evaluate(e, i, s, facts).Ok? && Evaluate(e, i, s, facts) == Evaluate(e', i', s', facts')
    ensures i == i' && s == s' && facts == facts' && e.ttlSeconds == e'.ttlSeconds
  {
    hide Evaluate;
    DecisionBinds(e, i, s, facts);
    DecisionBinds(e', i', s', facts');
    SameIntent(i, i');
    SameSnapshot(s, s');
  }

  // ---- When the verdict permits --------------------------------------------

  /** Everything a permissive verdict depends on, said of the controls of the snapshot themselves. */
  ghost predicate MayProceed(e: Evaluator, i: ActionIntent, s: Snapshot, facts: EvaluationFacts) {
    var situation := Situation(i, s, facts, e.registry);
    && (exists c :: c in s.controls && Selected(c, i, s.observedAt))
    && forall c :: c in s.controls && Selected(c, i, s.observedAt)
                   ==> && Settled(c, i)
                       && Permissive(c.effect.verdict)
                       && EffectServed(c.effect, ReferenceOf(c), situation)
  }

  /** The same condition on the list of selected outcomes. */
  ghost predicate OutcomesMayProceed(os: seq<Applied>, s: Situation) {
    && os != []
    && (forall o :: o in os ==> Permissive(EffectVerdictOf(o.outcome)))
    && forall o :: o in os && o.outcome.Normal? ==> EffectServed(o.outcome.effect, o.ref, s)
  }

  lemma FailuresNeverPermit(f: Failure)
    ensures !Permissive(FailureVerdict(f))
  {
  }

  lemma OutcomesProceedIff(e: Evaluator, i: ActionIntent, s: Snapshot, facts: EvaluationFacts)
    requires SelectControls(i, s, e.canon).Ok?
    ensures OutcomesMayProceed(SelectControls(i, s, e.canon).value, Situation(i, s, facts, e.registry))
            <==> MayProceed(e, i, s, facts)
  {
    hide SelectControls, Selected, Settled, EffectServed, ReferenceOf, ResultsOf;
    var os := SelectControls(i, s, e.canon).value;
    var situation := Situation(i, s, facts, e.registry);
    SelectedExactly(i, s, e.canon);
    forall c | c in s.controls && Selected(c, i, s.observedAt)
      ensures Contributed(c, i) in os
    {
    }
    if OutcomesMayProceed(os, situation) {
      assert os[0] in os;
      assert os[0].control in s.controls && Selected(os[0].control, i, s.observedAt);
      forall c | c in s.controls && Selected(c, i, s.observedAt)
        ensures Settled(c, i) && Permissive(c.effect.verdict) && EffectServed(c.effect, ReferenceOf(c), situation)
      {
        assert Contributed(c, i) in os;
        FailuresNeverPermit(c.onUnknown);
      }
    }
    if MayProceed(e, i, s, facts) {
      var c :| c in s.controls && Selected(c, i, s.observedAt);
      assert Contributed(c, i) in os;
      forall o | o in os
        ensures Permissive(EffectVerdictOf(o.outcome))
        ensures o.outcome.Normal? ==> EffectServed(o.outcome.effect, o.ref, situation)
      {
        assert o.control in s.controls && Selected(o.control, i, s.observedAt);
      }
    }
  }

  lemma ComposePermitsIff(os: seq<Applied>, s: Situation, canon: Canon)
    requires Assess(os, s).Ok?
    ensures Permissive(Compose(os, Assess(os, s).value, canon).verdict) <==> OutcomesMayProceed(os, s)
  {
    hide Compose, Values, AssessOutcomes, Clean, EffectServed;
    var a := Assess(os, s).value;
    PermissiveIff(os, a, canon);
    ValuesPermissiveIff(os, a);
    OutcomesCleanIff(os, s);
  }

  /** A decision permits exactly when some control was selected and, for every selected control, no predicate was
      unknown, the effect is permissive, every condition holds under a registered verifier, every approval has
      enough matching facts all independent, and every profile has satisfied facts that retain a permissive
      verdict. */
  lemma PermitsIff(e: Evaluator, i: ActionIntent, s: Snapshot, facts: EvaluationFacts)
    requires Evaluate(e, i, s, facts).Ok?
    ensures Permissive(Evaluate(e, i, s, facts).value.verdict) <==> MayProceed(e, i, s, facts)
  {
    hide SelectControls, Assess, Compose, MayProceed, OutcomesMayProceed, DecisionWellFormed;
    var os := SelectControls(i, s, e.canon).value;
    ComposePermitsIff(os, Situation(i, s, facts, e.registry), e.canon);
    OutcomesProceedIff(e, i, s, facts);
  }
}
