/** What the selected controls contribute to a decision, said of controls and facts alone, and that the assessment
    collects exactly that. */
module Contributions {
  import opened Contracts
  import opened Counting
  import opened Predicates
  import opened Selection
  import opened Requirements
  import opened Composition

  // ---- One requirement -----------------------------------------------------

  /** Facts that answer the requirement and whose approvers are apart. */
  function GoodAnswers(r: ApprovalRequirement, s: Situation): nat {
    Count(s.facts.approvals, (f: ApprovalFact) => Answers(f, r, s) && Apart(f, r, s.intent.actor))
  }

  /** Some fact answers an approval requirement although its approver is not apart. */
  predicate Dependent(r: Requirement, s: Situation) {
    && r.NeedsApproval?
    && exists f :: f in s.facts.approvals && Answers(f, r.approval, s) && !Apart(f, r.approval, s.intent.actor)
  }

  /** A profile fact that counts for the requirement. */
  predicate Retains(f: ProfileFact, r: Requirement, ref: ControlRef, s: Situation) {
    && r.NeedsProfile? && ProfileCounts(r.profile, ref, s)
    && f in s.facts.profiles && Assesses(f, r.profile, ref, s)
  }

  /** What a profile fact adds: the verdict it retains, on its route. */
  predicate RetainedAs(f: ProfileFact, v: Effect) {
    match f.retainedVerdict
    case Block => v == Failed(BlockFailure(f.retainedRoute, f.code))
    case Conflict => v == Failed(BlockFailure(f.retainedRoute, f.code))
    case RouteTo => v == Failed(RouteFailure(f.retainedRoute, f.code))
    case RequireApproval => v == Failed(ApprovalFailure(f.code))
    case Allow => v == Normal(ControlEffect(Allow, f.retainedRoute, [], [], f.code))
    case AllowWithConditions => v == Normal(ControlEffect(AllowWithConditions, f.retainedRoute, [], [], f.code))
  }

  /** The requirement adds this to the verdict: its failure if it is not met, or what profile facts retain. */
  ghost predicate Adds(r: Requirement, ref: ControlRef, s: Situation, v: Effect) {
    || (r.NeedsApproval? && GoodAnswers(r.approval, s) < r.approval.minimumCount && v == Failed(r.approval.failure))
    || (r.NeedsProfile? && !ProfileCounts(r.profile, ref, s) && v == Failed(r.profile.failure))
    || exists f :: Retains(f, r, ref, s) && RetainedAs(f, v)
  }

  ghost predicate Demands(r: Requirement, ref: ControlRef, s: Situation, x: EvidenceRequirement) {
    r == NeedsEvidence(x) || exists f :: Retains(f, r, ref, s) && x in f.retainedEvidence
  }

  ghost predicate Asks(r: Requirement, ref: ControlRef, s: Situation, x: ApprovalRequirement) {
    r == NeedsApproval(x) || exists f :: Retains(f, r, ref, s) && x in f.retainedApprovals
  }

  /** The requirement explains itself with this code. */
  ghost predicate Explains(r: Requirement, ref: ControlRef, s: Situation, code: string) {
    || (Dependent(r, s) && code == INDEPENDENCE_CODE)
    || (r.NeedsApproval? && GoodAnswers(r.approval, s) < r.approval.minimumCount && code == r.approval.failure.code)
    || (r.NeedsProfile? && !ProfileCounts(r.profile, ref, s) && code == r.profile.failure.code)
    || exists f :: Retains(f, r, ref, s) && code == f.code
  }

  // ---- One condition -------------------------------------------------------

  /** The registered core verifier refutes the condition's predicate. */
  predicate ConditionFails(c: Condition, s: Situation) {
    && c.verifier == CORE_PREDICATE_VERIFIER && CORE_PREDICATE_VERIFIER in s.registry
    && c.test.Some? && Refuted(c.test.value, Document(s.intent))
  }

  predicate Notes(c: Condition, s: Situation, x: ConditionResult) {
    && x.conditionId == c.conditionId
    && x.status == (if ConditionHolds(c, s) then ConditionSatisfied
                    else if ConditionFails(c, s) then ConditionFailed else ConditionUnknown)
    && x.code == (if ConditionHolds(c, s) then SATISFIED_CODE else c.failure.code)
  }

  // ---- An assessment that holds exactly what is contributed ----------------

  function Added(a: Assessment): seq<Effect> { FailureEffects(a.failures) + a.profileOutcomes }

  lemma {:induction false} EffectsConcat(xs: seq<FailureEntry>, ys: seq<FailureEntry>)
    ensures FailureEffects(xs + ys) == FailureEffects(xs) + FailureEffects(ys)
  {
    if xs == [] {
      assert xs + ys == ys;
    } else {
      assert (xs + ys)[1..] == xs[1..] + ys;
      EffectsConcat(xs[1..], ys);
    }
  }

  lemma JoinAdds(a: Assessment, b: Assessment)
    ensures forall v :: v in Added(Join(a, b)) <==> v in Added(a) || v in Added(b)
    ensures forall x :: x in Join(a, b).evidence <==> x in a.evidence || x in b.evidence
    ensures forall x :: x in Join(a, b).approvals <==> x in a.approvals || x in b.approvals
    ensures forall x :: x in Join(a, b).conditions <==> x in a.conditions || x in b.conditions
    ensures forall x :: x in Join(a, b).codes <==> x in a.codes || x in b.codes
    ensures Join(a, b).independenceFailed <==> a.independenceFailed || b.independenceFailed
  {
    EffectsConcat(a.failures, b.failures);
  }

  /** What a list of requirements contributes, no more and no less. */
  ghost predicate FromRequirements(a: Assessment, rs: seq<Requirement>, ref: ControlRef, s: Situation) {
    && (forall v :: v in Added(a) <==> exists r :: r in rs && Adds(r, ref, s, v))
    && (forall x :: x in a.evidence <==> exists r :: r in rs && Demands(r, ref, s, x))
    && (forall x :: x in a.approvals <==> exists r :: r in rs && Asks(r, ref, s, x))
    && (forall x :: x in a.codes <==> exists r :: r in rs && Explains(r, ref, s, x))
    && (a.independenceFailed <==> exists r :: r in rs && Dependent(r, s))
    && a.conditions == []
  }

  lemma {:induction false} IndependentCount(facts: seq<ApprovalFact>, r: ApprovalRequirement, s: Situation)
    ensures |Independent(Matching(facts, r, s), r, s.intent)|
            == Count(facts, (f: ApprovalFact) => Answers(f, r, s) && Apart(f, r, s.intent.actor))
  {
    hide ApprovalMatches, IndependenceFails, Answers, Apart;
    if facts != [] {
      var rest := Matching(facts[1..], r, s);
      IndependentCount(facts[1..], r, s);
      AnswersIff(r, facts[0], s);
      ApartIff(r, facts[0], s.intent);
      assert ([facts[0]] + rest)[1..] == rest;
      assert [] + rest == rest;
    }
  }

  lemma ApprovalContents(r: ApprovalRequirement, ref: ControlRef, s: Situation)
    ensures var a := AssessApproval(r, ref, s);
            && Added(a) == (if GoodAnswers(r, s) < r.minimumCount then [Failed(r.failure)] else [])
            && a.evidence == [] && a.conditions == [] && a.approvals == [r]
            && a.codes == (if Dependent(NeedsApproval(r), s) then [INDEPENDENCE_CODE] else [])
                          + (if GoodAnswers(r, s) < r.minimumCount then [r.failure.code] else [])
            && a.independenceFailed == Dependent(NeedsApproval(r), s)
  {
    hide Matching, Independent, AnyDependent, Count, Answers, Apart;
    IndependentCount(s.facts.approvals, r, s);
    AllApartIff(r, s);
    var a := AssessApproval(r, ref, s);
    assert a.failures == if GoodAnswers(r, s) < r.minimumCount then [FailureEntry(ref, r.failure, r.failure.code)]
                         else [];
    assert a.failures != [] ==> a.failures[1..] == [];
    assert FailureEffects([]) == [];
  }

  lemma {:induction false} RetainedContents(fs: seq<ProfileFact>)
    requires RetainAll(fs).Ok?
    ensures var a := RetainAll(fs).value;
            && (forall v :: v in Added(a) <==> exists f :: f in fs && RetainedAs(f, v))
            && (forall x :: x in a.evidence <==> exists f :: f in fs && x in f.retainedEvidence)
            && (forall x :: x in a.approvals <==> exists f :: f in fs && x in f.retainedApprovals)
            && (forall x :: x in a.codes <==> exists f :: f in fs && x == f.code)
            && !a.independenceFailed && a.conditions == []
  {
    hide RetainedAs, ProfileOutcome, Join;
    if fs == [] {
      assert Added(NOTHING) == [];
    } else {
      var f := fs[0];
      var first := NOTHING.(profileOutcomes := [ProfileOutcome(f).value], approvals := f.retainedApprovals,
                            evidence := f.retainedEvidence, codes := [f.code]);
      RetainedContents(fs[1..]);
      JoinAdds(first, RetainAll(fs[1..]).value);
      JoinedConditions(first, RetainAll(fs[1..]).value);
      OutcomeRetained(f);
      assert Added(first) == [ProfileOutcome(f).value];
      assert fs == [f] + fs[1..];
      forall v
        ensures v in Added(RetainAll(fs).value) <==> exists g :: g in fs && RetainedAs(g, v)
      {
        assert v in Added(first) <==> RetainedAs(f, v);
        if g :| g in fs && RetainedAs(g, v) {
          assert g == f || g in fs[1..];
        }
      }
    }
  }

  lemma JoinedConditions(a: Assessment, b: Assessment)
    ensures Join(a, b).conditions == a.conditions + b.conditions
  {
  }

  lemma OutcomeRetained(f: ProfileFact)
    requires ProfileOutcome(f).Ok?
    ensures forall v :: v == ProfileOutcome(f).value <==> RetainedAs(f, v)
  {
  }

  /** What one requirement contributes. */
  ghost predicate FromRequirement(a: Assessment, r: Requirement, ref: ControlRef, s: Situation) {
    && (forall v :: v in Added(a) <==> Adds(r, ref, s, v))
    && (forall x :: x in a.evidence <==> Demands(r, ref, s, x))
    && (forall x :: x in a.approvals <==> Asks(r, ref, s, x))
    && (forall x :: x in a.codes <==> Explains(r, ref, s, x))
    && (a.independenceFailed <==> Dependent(r, s))
    && a.conditions == []
  }

  lemma RequirementContents(r: Requirement, ref: ControlRef, s: Situation)
    requires AssessRequirement(r, ref, s).Ok?
    ensures FromRequirement(AssessRequirement(r, ref, s).value, r, ref, s)
  {
    hide AssessApproval, RetainAll, MatchingProfiles, AllSatisfied, GoodAnswers, ProfileCounts, Assesses, RetainedAs;
    hide Answers, Apart;
    match r
    case NeedsEvidence(e) =>
      assert Added(NOTHING.(evidence := [e])) == [];
    case NeedsApproval(a) =>
      ApprovalContents(a, ref, s);
    case NeedsProfile(p) =>
      ProfileContents(p, ref, s);
  }

  lemma ProfileContents(p: ProfileRequirement, ref: ControlRef, s: Situation)
    requires AssessProfile(p, ref, s).Ok?
    ensures FromRequirement(AssessProfile(p, ref, s).value, NeedsProfile(p), ref, s)
  {
    hide RetainAll, MatchingProfiles, AllSatisfied, ProfileCounts, ProfileServed, Assesses, RetainedAs;
    var r := NeedsProfile(p);
    var a := AssessProfile(p, ref, s).value;
    var matching := MatchingProfiles(s.facts.profiles, p, ref, s);
    ProfileCountsIff(p, ref, s);
    MatchingProfilesMembers(s.facts.profiles, p, ref, s);
    if ProfileCounts(p, ref, s) {
      RetainedContents(matching);
      assert forall f :: Retains(f, r, ref, s) <==> f in matching;
    } else {
      assert a.failures == [FailureEntry(ref, p.failure, p.failure.code)] && a.failures[1..] == [];
      assert FailureEffects([]) == [];
      assert forall f :: !Retains(f, r, ref, s);
    }
  }

  lemma {:induction false} RequirementsContents(rs: seq<Requirement>, ref: ControlRef, s: Situation)
    requires AssessRequirements(rs, ref, s).Ok?
    ensures FromRequirements(AssessRequirements(rs, ref, s).value, rs, ref, s)
  {
    hide AssessRequirement, Join, Adds, Demands, Asks, Explains, Dependent;
    if rs == [] {
      assert Added(NOTHING) == [];
    } else {
      var first, rest := AssessRequirement(rs[0], ref, s).value, AssessRequirements(rs[1..], ref, s).value;
      RequirementContents(rs[0], ref, s);
      RequirementsContents(rs[1..], ref, s);
      hide Added;
      JoinAdds(first, rest);
      JoinedConditions(first, rest);
      assert rs == [rs[0]] + rs[1..];
    }
  }

  ghost predicate FromConditions(a: Assessment, cs: seq<Condition>, s: Situation) {
    && (forall v :: v in Added(a) <==> exists c :: c in cs && !ConditionHolds(c, s) && v == Failed(c.failure))
    && (forall x :: x in a.conditions <==> exists c :: c in cs && Notes(c, s, x))
    && (forall x :: x in a.codes <==> exists c :: c in cs && !ConditionHolds(c, s) && x == c.failure.code)
    && a.evidence == [] && a.approvals == [] && !a.independenceFailed
  }

  lemma ConditionContents(c: Condition, ref: ControlRef, s: Situation)
    ensures FromConditions(AssessCondition(c, ref, s), [c], s)
  {
    hide EvaluatePredicate, Confirmed, Refuted, Document;
    ConditionIff(c, s);
    if c.test.Some? {
      JudgedIff(c.test.value, Document(s.intent));
    }
    var a := AssessCondition(c, ref, s);
    assert a.failures == if ConditionHolds(c, s) then [] else [FailureEntry(ref, c.failure, c.failure.code)];
    assert a.failures != [] ==> a.failures[1..] == [];
    assert FailureEffects([]) == [];
    assert a.conditions == [a.conditions[0]] && Notes(c, s, a.conditions[0]);
  }

  lemma {:induction false} ConditionsContents(cs: seq<Condition>, ref: ControlRef, s: Situation)
    ensures FromConditions(AssessConditions(cs, ref, s), cs, s)
  {
    hide AssessCondition, ConditionHolds, Notes;
    if cs == [] {
      assert Added(NOTHING) == [];
    } else {
      ConditionContents(cs[0], ref, s);
      ConditionsContents(cs[1..], ref, s);
      hide Added;
      JoinAdds(AssessCondition(cs[0], ref, s), AssessConditions(cs[1..], ref, s));
      assert cs == [cs[0]] + cs[1..];
    }
  }

  // ---- Selected controls ---------------------------------------------------

  /** The control is selected, and each of its predicates is confirmed, so that its effect applies. */
  predicate Applies(c: Control, s: Situation) {
    c in s.snapshot.controls && Selected(c, s.intent, s.snapshot.observedAt) && Settled(c, s.intent)
  }

  /** The control is selected, but some predicate of it is undecided, so that its unknown failure applies. */
  predicate Unknowable(c: Control, s: Situation) {
    c in s.snapshot.controls && Selected(c, s.intent, s.snapshot.observedAt) && !Settled(c, s.intent)
  }

  /** A requirement of a control whose effect applies. */
  predicate Requires(c: Control, r: Requirement, s: Situation) {
    Applies(c, s) && r in c.effect.requirements
  }

  predicate Conditions(c: Control, k: Condition, s: Situation) {
    Applies(c, s) && k in c.effect.conditions
  }

  /** Everything that bears on the verdict: unknown failures and effects of selected controls, failures of conditions
      that do not hold, and what requirements add. */
  ghost predicate Contributes(s: Situation, v: Effect) {
    || (exists c :: Unknowable(c, s) && v == Failed(c.onUnknown))
    || (exists c :: Applies(c, s) && v == Normal(c.effect))
    || (exists c, k :: Conditions(c, k, s) && !ConditionHolds(k, s) && v == Failed(k.failure))
    || (exists c, r :: Requires(c, r, s) && Adds(r, ReferenceOf(c), s, v))
  }

  /** An approval of some selected control was given by someone who is not apart. */
  ghost predicate SomeDependent(s: Situation) {
    exists c, r :: Requires(c, r, s) && Dependent(r, s)
  }

  /** The assessment of the selected outcomes holds exactly what the selected controls contribute. */
  ghost predicate Collects(a: Assessment, s: Situation) {
    && (forall v :: v in Added(a)
          <==> || (exists c, k :: Conditions(c, k, s) && !ConditionHolds(k, s) && v == Failed(k.failure))
               || (exists c, r :: Requires(c, r, s) && Adds(r, ReferenceOf(c), s, v)))
    && (forall x :: x in a.evidence <==> exists c, r :: Requires(c, r, s) && Demands(r, ReferenceOf(c), s, x))
    && (forall x :: x in a.approvals <==> exists c, r :: Requires(c, r, s) && Asks(r, ReferenceOf(c), s, x))
    && (forall x :: x in a.conditions <==> exists c, k :: Conditions(c, k, s) && Notes(k, s, x))
    && (forall x :: x in a.codes
          <==> || (exists c, k :: Conditions(c, k, s) && !ConditionHolds(k, s) && x == k.failure.code)
               || (exists c, r :: Requires(c, r, s) && Explains(r, ReferenceOf(c), s, x)))
    && (a.independenceFailed <==> SomeDependent(s))
  }

  predicate IsRequired(o: Applied, r: Requirement) {
    o.outcome.Normal? && r in o.outcome.effect.requirements
  }

  predicate IsConditioned(o: Applied, k: Condition) {
    o.outcome.Normal? && k in o.outcome.effect.conditions
  }

  /** The same of a list of outcomes. */
  ghost predicate CollectsFrom(a: Assessment, os: seq<Applied>, s: Situation) {
    && (forall v :: v in Added(a)
          <==> || (exists o, k :: o in os && IsConditioned(o, k) && !ConditionHolds(k, s) && v == Failed(k.failure))
               || (exists o, r :: o in os && IsRequired(o, r) && Adds(r, o.ref, s, v)))
    && (forall x :: x in a.evidence <==> exists o, r :: o in os && IsRequired(o, r) && Demands(r, o.ref, s, x))
    && (forall x :: x in a.approvals <==> exists o, r :: o in os && IsRequired(o, r) && Asks(r, o.ref, s, x))
    && (forall x :: x in a.conditions <==> exists o, k :: o in os && IsConditioned(o, k) && Notes(k, s, x))
    && (forall x :: x in a.codes
          <==> || (exists o, k :: o in os && IsConditioned(o, k) && !ConditionHolds(k, s) && x == k.failure.code)
               || (exists o, r :: o in os && IsRequired(o, r) && Explains(r, o.ref, s, x)))
    && (a.independenceFailed <==> exists o, r :: o in os && IsRequired(o, r) && Dependent(r, s))
  }

  /** What one outcome contributes. */
  ghost predicate CollectsOne(a: Assessment, o: Applied, s: Situation) {
    && (forall v :: v in Added(a)
          <==> || (exists k :: IsConditioned(o, k) && !ConditionHolds(k, s) && v == Failed(k.failure))
               || (exists r :: IsRequired(o, r) && Adds(r, o.ref, s, v)))
    && (forall x :: x in a.evidence <==> exists r :: IsRequired(o, r) && Demands(r, o.ref, s, x))
    && (forall x :: x in a.approvals <==> exists r :: IsRequired(o, r) && Asks(r, o.ref, s, x))
    && (forall x :: x in a.conditions <==> exists k :: IsConditioned(o, k) && Notes(k, s, x))
    && (forall x :: x in a.codes
          <==> || (exists k :: IsConditioned(o, k) && !ConditionHolds(k, s) && x == k.failure.code)
               || (exists r :: IsRequired(o, r) && Explains(r, o.ref, s, x)))
    && (a.independenceFailed <==> exists r :: IsRequired(o, r) && Dependent(r, s))
  }

  lemma OutcomeContents(o: Applied, s: Situation)
    requires AssessOutcome(o, s).Ok?
    ensures CollectsOne(AssessOutcome(o, s).value, o, s)
  {
    hide AssessConditions, AssessRequirements, ConditionHolds, Adds, Demands, Asks, Explains, Dependent, Notes, Join;
    match o.outcome
    case Failed(_) =>
      assert Added(NOTHING) == [];
      assert forall k :: !IsConditioned(o, k);
      assert forall r :: !IsRequired(o, r);
    case Normal(e) =>
      var c, q := AssessConditions(e.conditions, o.ref, s), AssessRequirements(e.requirements, o.ref, s).value;
      ConditionsContents(e.conditions, o.ref, s);
      RequirementsContents(e.requirements, o.ref, s);
      JoinedContents(o, s, e, c, q);
  }

  lemma JoinedContents(o: Applied, s: Situation, e: ControlEffect, c: Assessment, q: Assessment)
    requires o.outcome == Normal(e) && FromConditions(c, e.conditions, s)
    requires FromRequirements(q, e.requirements, o.ref, s)
    ensures CollectsOne(Join(c, q), o, s)
  {
    hide ConditionHolds, Adds, Demands, Asks, Explains, Dependent, Notes, Join, Added;
    JoinAdds(c, q);
    JoinedConditions(c, q);
    assert forall k :: IsConditioned(o, k) <==> k in e.conditions;
    assert forall r :: IsRequired(o, r) <==> r in e.requirements;
  }

  lemma {:induction false} OutcomesContents(os: seq<Applied>, s: Situation)
    requires AssessOutcomes(os, s).Ok?
    ensures CollectsFrom(AssessOutcomes(os, s).value, os, s)
  {
    hide AssessOutcome, ConditionHolds, Adds, Demands, Asks, Explains, Dependent, Notes, Join, IsRequired;
    hide IsConditioned;
    if os == [] {
      assert Added(NOTHING) == [];
    } else {
      OutcomeContents(os[0], s);
      OutcomesContents(os[1..], s);
      hide Added;
      JoinAdds(AssessOutcome(os[0], s).value, AssessOutcomes(os[1..], s).value);
      assert os == [os[0]] + os[1..];
    }
  }
}
