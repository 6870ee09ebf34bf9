/** Exactly when an evaluation makes a decision, said of its inputs. */
module Totality {
  import opened Wrappers
  import opened Contracts
  import opened Ordering
  import opened Pointer
  import opened Predicates
  import opened Selection
  import opened Requirements
  import opened Composition
  import opened Evaluator
  import opened Validity

  // ---- When selection and assessment succeed -------------------------------

  /** Every predicate of a control in force that matches resolves its pointer, to a value or to nothing. */
  predicate PointersResolve(controls: seq<Control>, i: ActionIntent, observedAt: int) {
    forall c :: c in controls && Concerns(c, i, observedAt)
      ==> forall p :: p in c.match_.predicates ==> Resolve(Document(i), p.path).Ok?
  }

  lemma {:induction false} SelectFromIff(controls: seq<Control>, i: ActionIntent, observedAt: int)
    ensures SelectFrom(controls, i, observedAt).Ok? <==> PointersResolve(controls, i, observedAt)
  {
    hide Resolve, Effective, CoreMatch, Concerns, ApplyControl, Document, PredicateResults, Selected, Settled;
    if controls != [] {
      SelectFromIff(controls[1..], i, observedAt);
      SelectedIff(controls[0], i, observedAt);
      ResultsIff(controls[0].match_.predicates, Document(i));
      assert controls == [controls[0]] + controls[1..];
    }
  }

  /** Selection succeeds exactly on a valid snapshot whose matching controls in force resolve their pointers. */
  lemma SelectsIff(i: ActionIntent, s: Snapshot, canon: Canon)
    ensures SelectControls(i, s, canon).Ok?
            <==> && VerifiedSnapshot(s) && ControlsSound(s.controls, s.supportedVerifiers)
                 && PointersResolve(s.controls, i, s.observedAt)
  {
    hide SelectFrom, PointersResolve, ControlsSound;
    SnapshotValidIff(s);
    SelectFromIff(s.controls, i, s.observedAt);
  }

  /** The verdict a profile fact retains fits its route. */
  predicate Consistent(f: ProfileFact) {
    match f.retainedVerdict
    case Block => f.retainedRoute.kind == BlockRoute
    case Conflict => f.retainedRoute.kind == BlockRoute
    case RouteTo => f.retainedRoute.kind !in {BlockRoute, Continue, RecordOnly}
    case RequireApproval => true
    case Allow => f.retainedRoute.kind != BlockRoute
    case AllowWithConditions => f.retainedRoute.kind != BlockRoute
  }

  /** If the facts about a profile requirement count, they are consistent. */
  predicate ProfileConsistent(r: ProfileRequirement, ref: ControlRef, s: Situation) {
    ProfileCounts(r, ref, s) ==> forall f :: f in s.facts.profiles && Assesses(f, r, ref, s) ==> Consistent(f)
  }

  predicate EffectConsistent(e: ControlEffect, ref: ControlRef, s: Situation) {
    forall r :: r in e.requirements && r.NeedsProfile? ==> ProfileConsistent(r.profile, ref, s)
  }

  lemma RetainedIff(f: ProfileFact)
    ensures ProfileOutcome(f).Ok? <==> Consistent(f)
  {
  }

  lemma {:induction false} RetainsIff(facts: seq<ProfileFact>)
    ensures RetainAll(facts).Ok? <==> forall f :: f in facts ==> Consistent(f)
  {
    hide ProfileOutcome, Consistent, Join;
    if facts != [] {
      RetainedIff(facts[0]);
      RetainsIff(facts[1..]);
      assert facts == [facts[0]] + facts[1..];
    }
  }

  lemma ProfileIff(r: ProfileRequirement, ref: ControlRef, s: Situation)
    ensures AssessProfile(r, ref, s).Ok? <==> ProfileConsistent(r, ref, s)
  {
    hide MatchingProfiles, Assesses, RetainAll, Consistent, ProfileCounts, ProfileServed;
    var matching := MatchingProfiles(s.facts.profiles, r, ref, s);
    MatchingProfilesMembers(s.facts.profiles, r, ref, s);
    ProfileCountsIff(r, ref, s);
    RetainsIff(matching);
  }

  lemma {:induction false} RequirementsIff(rs: seq<Requirement>, ref: ControlRef, s: Situation)
    ensures AssessRequirements(rs, ref, s).Ok?
            <==> forall r :: r in rs && r.NeedsProfile? ==> ProfileConsistent(r.profile, ref, s)
  {
    hide AssessProfile, ProfileConsistent, AssessApproval, Join;
    if rs != [] {
      RequirementsIff(rs[1..], ref, s);
      if rs[0].NeedsProfile? {
        ProfileIff(rs[0].profile, ref, s);
      }
      assert rs == [rs[0]] + rs[1..];
    }
  }

  lemma {:induction false} OutcomesIff(os: seq<Applied>, s: Situation)
    ensures AssessOutcomes(os, s).Ok?
            <==> forall o :: o in os && o.outcome.Normal? ==> EffectConsistent(o.outcome.effect, o.ref, s)
  {
    hide AssessRequirements, AssessConditions, ProfileConsistent, Join;
    if os != [] {
      OutcomesIff(os[1..], s);
      if os[0].outcome.Normal? {
        RequirementsIff(os[0].outcome.effect.requirements, os[0].ref, s);
      }
      assert os == [os[0]] + os[1..];
    }
  }

  /** The profile facts that count for the effects of selected controls are consistent. */
  predicate ProfilesConsistent(e: Evaluator, i: ActionIntent, s: Snapshot, facts: EvaluationFacts) {
    forall c :: c in s.controls && Selected(c, i, s.observedAt) && Settled(c, i)
      ==> EffectConsistent(c.effect, ReferenceOf(c), Situation(i, s, facts, e.registry))
  }

  /** Every fact carries its own digest. */
  predicate FactsGenuine(facts: EvaluationFacts) {
    && (forall f :: f in facts.approvals ==> f.digest == Some(OfApproval(f.(digest := None))))
    && (forall f :: f in facts.evidence ==> f.digest == Some(OfEvidence(f.(digest := None))))
    && (forall f :: f in facts.profiles ==> f.digest == Some(OfProfile(f.(digest := None))))
  }

  lemma FactsGenuineIff(facts: EvaluationFacts)
    ensures FactsVerified(facts) <==> FactsGenuine(facts)
  {
    if FactsGenuine(facts) {
      assert forall k :: 0 <= k < |facts.approvals| ==> facts.approvals[k] in facts.approvals;
      assert forall k :: 0 <= k < |facts.evidence| ==> facts.evidence[k] in facts.evidence;
      assert forall k :: 0 <= k < |facts.profiles| ==> facts.profiles[k] in facts.profiles;
    }
  }

  /** Once selection succeeded, assessment does exactly on genuine facts that are consistent where they count. */
  lemma AssessesIff(e: Evaluator, i: ActionIntent, s: Snapshot, facts: EvaluationFacts)
    requires SelectControls(i, s, e.canon).Ok?
    ensures Assess(SelectControls(i, s, e.canon).value, Situation(i, s, facts, e.registry)).Ok?
            <==> FactsGenuine(facts) && ProfilesConsistent(e, i, s, facts)
  {
    hide SelectControls, Selected, Settled, EffectConsistent, ReferenceOf, FactsVerified, AssessOutcomes, ResultsOf;
    hide FactsGenuine;
    FactsGenuineIff(facts);
    var os := SelectControls(i, s, e.canon).value;
    var situation := Situation(i, s, facts, e.registry);
    SelectedExactly(i, s, e.canon);
    OutcomesIff(os, situation);
    forall c | c in s.controls && Selected(c, i, s.observedAt) && Settled(c, i)
      ensures exists o :: o in os && o.outcome == Normal(c.effect) && o.ref == ReferenceOf(c)
    {
      assert Contributed(c, i) in os;
    }
  }

  // ---- The trap ------------------------------------------------------------

  /** The routes that effects and failures make mandatory are all this one. */
  predicate OnlyMandatory(values: seq<Effect>, r: Route) {
    && (exists e :: e in values && EffectVerdictOf(e) == RouteTo && EffectRoute(e) == Some(r))
    && (forall e :: e in values && EffectVerdictOf(e) == RouteTo ==> EffectRoute(e) == Some(r))
  }

  predicate NoBlock(values: seq<Effect>, a: Assessment) {
    !a.independenceFailed && forall e :: e in values ==> EffectVerdictOf(e) != Block
  }

  /** Nothing blocks, one route is mandatory, and it is one of the default kinds. */
  ghost predicate Trapped(os: seq<Applied>, a: Assessment) {
    os != [] && NoBlock(Values(os, a), a)
    && exists r: Route :: r.kind in {BlockRoute, Continue, RecordOnly} && OnlyMandatory(Values(os, a), r)
  }

  lemma MandatoryRoutes(values: seq<Effect>, canon: Canon, r: Route)
    requires Injective(canon.route)
    ensures var mandatory := Unique(RoutesOf(values, RouteTo), canon.route);
            mandatory == [r] <==> OnlyMandatory(values, r)
  {
    hide EffectVerdictOf, EffectRoute, InsertUnique, Unique, RoutesOf;
    var routes := RoutesOf(values, RouteTo);
    var mandatory := Unique(routes, canon.route);
    RoutesOfMembers(values, RouteTo);
    UniqueSpec(routes, canon.route);
    if mandatory == [r] {
      assert r in mandatory;
      forall e | e in values && EffectVerdictOf(e) == RouteTo
        ensures EffectRoute(e) == Some(r)
      {
        RouteHasRoute(e);
        assert EffectRoute(e).value in mandatory;
      }
    }
    if OnlyMandatory(values, r) {
      OneMember(mandatory, canon.route, r);
    }
  }

  lemma RouteHasRoute(e: Effect)
    requires EffectVerdictOf(e) == RouteTo
    ensures EffectRoute(e).Some?
  {
  }

  lemma OneMember(s: seq<Route>, key: Route -> string, r: Route)
    requires StrictlySorted(s, key) && r in s && forall x :: x in s ==> x == r
    ensures s == [r]
  {
    assert s[0] in s;
    if |s| > 1 {
      assert s[1] in s && Less(key(s[0]), key(s[1]));
      LessIrreflexive(key(r));
    }
  }

  lemma BlockedIff(values: seq<Effect>, a: Assessment)
    ensures BlockRoutes(values, a) == [] <==> NoBlock(values, a)
  {
    hide RoutesOf;
    RoutedVerdict(values, Block);
    if HasVerdict(values, Block) {
      var i :| 0 <= i < |values| && EffectVerdictOf(values[i]) == Block;
      assert values[i] in values;
    }
  }

  lemma BlockRoutesBlock(values: seq<Effect>, a: Assessment, canon: Canon)
    requires Injective(canon.route) && (forall e :: e in values ==> ValidEffect(e))
    ensures forall r :: r in Unique(BlockRoutes(values, a), canon.route) ==> r.kind == BlockRoute
  {
    hide Unique, RoutesOf, InsertUnique;
    RoutesOfMembers(values, Block);
    UniqueSpec(BlockRoutes(values, a), canon.route);
    forall r | r in RoutesOf(values, Block)
      ensures r.kind == BlockRoute
    {
      var e :| e in values && EffectVerdictOf(e) == Block && EffectRoute(e) == Some(r);
      assert ValidEffect(e);
    }
  }

  /** Base routes of permissive values are not block routes. */
  lemma PermissiveBase(values: seq<Effect>, canon: Canon)
    requires Injective(canon.route) && (forall e :: e in values ==> ValidEffect(e)) && AllPermissive(values)
    ensures forall r :: r in Unique(BaseRoutes(values), canon.route) ==> r.kind != BlockRoute
  {
    hide Unique, BaseRoutes, InsertUnique;
    BaseRoutesMembers(values);
    UniqueSpec(BaseRoutes(values), canon.route);
    AllByMembers(values);
    forall r | r in BaseRoutes(values)
      ensures r.kind != BlockRoute
    {
      var e :| e in values && e.Normal? && e.effect.route == r;
      assert ValidEffect(e);
    }
  }

  /** The route of a ruling fits its verdict unless the one mandatory route is of a default kind. */
  lemma RulingFits(os: seq<Applied>, a: Assessment, canon: Canon)
    requires os != [] && canon.Faithful() && (forall e :: e in Values(os, a) ==> ValidEffect(e))
    ensures var c := Rule(os, a, canon);
            && (c.verdict == Block || c.verdict == Conflict ==> c.route.kind == BlockRoute)
            && (Permissive(c.verdict) ==> c.route.kind != BlockRoute)
            && (c.verdict == RouteTo && DefaultRoute(c.route.kind) <==> Trapped(os, a))
  {
    hide Values, RoutesOf, BaseRoutes, Unique, HasVerdict, ValidEffect, OnlyMandatory, NoBlock, BlockRoutes;
    var values := Values(os, a);
    BlockedIff(values, a);
    BlockRoutesBlock(values, a, canon);
    UniqueEmptiness(BlockRoutes(values, a), canon.route);
    UniqueEmptiness(BaseRoutes(values), canon.route);
    UniqueEmptiness(RoutesOf(values, RouteTo), canon.route);
    var mandatory := Unique(RoutesOf(values, RouteTo), canon.route);
    forall r: Route
      ensures mandatory == [r] <==> OnlyMandatory(values, r)
    {
      MandatoryRoutes(values, canon, r);
    }
    if |mandatory| == 1 {
      assert mandatory == [mandatory[0]];
    }
    PermissiveRuling(os, a, canon);
  }

  lemma PermissiveRuling(os: seq<Applied>, a: Assessment, canon: Canon)
    requires os != [] && canon.Faithful() && (forall e :: e in Values(os, a) ==> ValidEffect(e))
    ensures Permissive(Rule(os, a, canon).verdict) ==> Rule(os, a, canon).route.kind != BlockRoute
  {
    hide Values, RoutesOf, BaseRoutes, Unique, ValidEffect, BlockRoutes, AllPermissive, HasVerdict;
    var values := Values(os, a);
    PermissiveIff(os, a, canon);
    if Permissive(Rule(os, a, canon).verdict) {
      PermissiveBase(values, canon);
      UniqueEmptiness(RoutesOf(values, RouteTo), canon.route);
      PermissiveHasBase(os, a);
      UniqueEmptiness(BaseRoutes(values), canon.route);
      assert Rule(os, a, canon).route in Unique(BaseRoutes(values), canon.route);
    }
  }

  lemma ComposedFits(os: seq<Applied>, a: Assessment, canon: Canon)
    requires canon.Faithful() && (forall e :: e in Values(os, a) ==> ValidEffect(e))
    ensures var c := Compose(os, a, canon);
            && (Permissive(c.verdict) ==> c.applied != [])
            && (c.verdict == Block || c.verdict == Conflict ==> c.route.kind == BlockRoute)
            && (Permissive(c.verdict) ==> c.route.kind != BlockRoute)
            && (c.verdict == RouteTo && DefaultRoute(c.route.kind) <==> Trapped(os, a))
  {
    hide Values, Rule, Unique, ValidEffect, NoBlock, OnlyMandatory, Codes;
    if os != [] {
      RulingFits(os, a, canon);
      UniqueEmptiness(Refs(os), canon.control);
    }
  }

  // ---- The trace -----------------------------------------------------------

  /** No control is selected at two places of the snapshot. Two entries that differ only in display text have one
      digest and are one value here. */
  predicate SelectedOnce(controls: seq<Control>, i: ActionIntent, observedAt: int) {
    forall j, k :: 0 <= j < k < |controls|
                   && Selected(controls[j], i, observedAt) && Selected(controls[k], i, observedAt)
      ==> ReferenceOf(controls[j]) != ReferenceOf(controls[k])
  }

  lemma SelectedOnceStep(controls: seq<Control>, i: ActionIntent, observedAt: int)
    requires controls != []
    ensures SelectedOnce(controls, i, observedAt)
            <==> && SelectedOnce(controls[1..], i, observedAt)
                 && (Selected(controls[0], i, observedAt)
                     ==> forall c :: c in controls[1..] && Selected(c, i, observedAt)
                           ==> ReferenceOf(c) != ReferenceOf(controls[0]))
  {
    hide Selected, ReferenceOf;
    var rest := controls[1..];
    assert forall k :: 0 <= k < |rest| ==> rest[k] == controls[k + 1];
    if SelectedOnce(controls, i, observedAt) && Selected(controls[0], i, observedAt) {
      forall c | c in rest && Selected(c, i, observedAt)
        ensures ReferenceOf(c) != ReferenceOf(controls[0])
      {
        var k :| 0 <= k < |rest| && rest[k] == c;
        assert controls[k + 1] == c;
      }
    }
    if SelectedOnce(rest, i, observedAt) {
      forall j, k | 0 < j < k < |controls| && Selected(controls[j], i, observedAt)
                    && Selected(controls[k], i, observedAt)
        ensures ReferenceOf(controls[j]) != ReferenceOf(controls[k])
      {
        assert rest[j - 1] == controls[j] && rest[k - 1] == controls[k];
      }
    }
  }

  /** Genuine controls with one reference are one control. */
  lemma OneReferenceOneControl(controls: seq<Control>, supported: set<string>, a: Control, b: Control)
    requires ControlsSound(controls, supported) && a in controls && b in controls
    ensures ReferenceOf(a) == ReferenceOf(b) <==> a == b
  {
  }

  lemma {:induction false} SelectFromDistinct(controls: seq<Control>, supported: set<string>, i: ActionIntent,
                                             observedAt: int)
    requires ControlsSound(controls, supported) && SelectFrom(controls, i, observedAt).Ok?
    ensures Distinct(SelectFrom(controls, i, observedAt).value) <==> SelectedOnce(controls, i, observedAt)
  {
    hide Selected, Settled, ReferenceOf, ResultsOf, Contribution;
    if controls != [] {
      var c, rest := controls[0], controls[1..];
      SelectFromDistinct(rest, supported, i, observedAt);
      SelectedOnceStep(controls, i, observedAt);
      SelectFromMembers(rest, i, observedAt);
      ContributionOf(c, i, observedAt);
      var first, later := Contribution(c, i, observedAt).value, SelectFrom(rest, i, observedAt).value;
      DistinctConcat(first, later);
      if Selected(c, i, observedAt) {
        var o := Contributed(c, i);
        assert first == [o] && Distinct([o]) && o in first;
        ApartFromRest(controls, supported, i, observedAt);
      }
    }
  }

  /** The first control's outcome is among the later ones exactly when a later selected control has its reference. */
  lemma ApartFromRest(controls: seq<Control>, supported: set<string>, i: ActionIntent, observedAt: int)
    requires ControlsSound(controls, supported) && controls != [] && Selected(controls[0], i, observedAt)
    requires SelectFrom(controls[1..], i, observedAt).Ok?
    ensures Contributed(controls[0], i) !in SelectFrom(controls[1..], i, observedAt).value
            <==> forall c :: c in controls[1..] && Selected(c, i, observedAt)
                   ==> ReferenceOf(c) != ReferenceOf(controls[0])
  {
    hide Selected, Settled, ReferenceOf, ResultsOf, SelectFrom, ControlsSound;
    var first := controls[0];
    SelectFromMembers(controls[1..], i, observedAt);
    forall c | c in controls[1..]
      ensures ReferenceOf(c) == ReferenceOf(first) <==> c == first
    {
      OneReferenceOneControl(controls, supported, c, first);
    }
  }

  lemma OneEntryOneOutcome(e: Evaluator, i: ActionIntent, s: Snapshot, a: Applied, b: Applied)
    requires SelectControls(i, s, e.canon).Ok? && ControlsSound(s.controls, s.supportedVerifiers)
    requires a in SelectControls(i, s, e.canon).value && b in SelectControls(i, s, e.canon).value && a.ref == b.ref
    ensures a == b
  {
    hide Selected, Settled, SelectControls, ResultsOf, ReferenceOf, ControlsSound;
    SelectedExactly(i, s, e.canon);
    OneReferenceOneControl(s.controls, s.supportedVerifiers, a.control, b.control);
  }

  /** The trace holds no entry twice exactly when no control is selected twice. */
  lemma TraceDistinctIff(e: Evaluator, i: ActionIntent, s: Snapshot)
    requires SelectControls(i, s, e.canon).Ok?
    ensures Distinct(TraceOf(SelectControls(i, s, e.canon).value)) <==> SelectedOnce(s.controls, i, s.observedAt)
  {
    hide SelectFrom, ControlsError, SelectedOnce, ControlsSound;
    SnapshotValidIff(s);
    var found := SelectFrom(s.controls, i, s.observedAt).value;
    var os := SelectControls(i, s, e.canon).value;
    SelectFromDistinct(s.controls, s.supportedVerifiers, i, s.observedAt);
    SortBySame(found, OutcomeKey(e.canon));
    DistinctPermutation(os, found);
    forall j, k | 0 <= j < k < |os|
      ensures os[j] == os[k] <==> TraceOf(os)[j] == TraceOf(os)[k]
    {
      if os[j].ref == os[k].ref {
        OneEntryOneOutcome(e, i, s, os[j], os[k]);
      }
    }
  }

  // ---- The result ----------------------------------------------------------

  /** With controls their validators accept, an evaluation whose selection and assessment succeed makes a decision
      exactly when no control is selected twice and it is not trapped: only a single mandatory route of a default kind
      keeps it from a decision, and only a repeated control from a trace. */
  lemma AssessedDecidesIff(e: Evaluator, i: ActionIntent, s: Snapshot, facts: EvaluationFacts)
    requires e.ttlSeconds > 0 && e.canon.Faithful() && VerifiedIntent(i) && ValidControls(s.controls)
    requires SelectControls(i, s, e.canon).Ok?
    requires Assess(SelectControls(i, s, e.canon).value, Situation(i, s, facts, e.registry)).Ok?
    ensures var os := SelectControls(i, s, e.canon).value;
            var a := Assess(os, Situation(i, s, facts, e.registry)).value;
            && (Evaluate(e, i, s, facts).Ok? <==> !Trapped(os, a) && SelectedOnce(s.controls, i, s.observedAt))
            && (Evaluate(e, i, s, facts) == Err(DecisionInvalid) <==> Trapped(os, a))
  {
    hide SelectControls, Assess, Compose, BuildDecision, Values, ValidEffect, Trapped, Evaluate, TraceOf, SelectedOnce;
    hide ValidControls;
    var os := SelectControls(i, s, e.canon).value;
    var a := Assess(os, Situation(i, s, facts, e.registry)).value;
    assert s.digest.Some? by { SelectedSnapshotHasDigest(e, i, s); }
    var c := Compose(os, a, e.canon);
    EvaluateSteps(e, i, s, facts, os, a);
    BuiltFields(e, i, s, facts, c);
    AllValuesValid(e, i, s, facts);
    ComposedFits(os, a, e.canon);
    TraceDistinctIff(e, i, s);
  }

  lemma SelectedSnapshotHasDigest(e: Evaluator, i: ActionIntent, s: Snapshot)
    requires SelectControls(i, s, e.canon).Ok?
    ensures s.digest.Some?
  {
    hide SelectFrom, ControlsError;
  }

  /** The inputs are genuine and fit together: intent, snapshot and facts carry their own digests, pointers resolve,
      and profile facts that count are consistent. */
  ghost predicate Acceptable(e: Evaluator, i: ActionIntent, s: Snapshot, facts: EvaluationFacts) {
    && VerifiedIntent(i)
    && VerifiedSnapshot(s) && ControlsSound(s.controls, s.supportedVerifiers)
    && PointersResolve(s.controls, i, s.observedAt)
    && FactsGenuine(facts) && ProfilesConsistent(e, i, s, facts)
  }

  /** What is assessed on these inputs is trapped. */
  ghost predicate Traps(e: Evaluator, i: ActionIntent, s: Snapshot, facts: EvaluationFacts) {
    var os := SelectControls(i, s, e.canon);
    os.Ok?
    && var a := Assess(os.value, Situation(i, s, facts, e.registry));
       a.Ok? && Trapped(os.value, a.value)
  }

  /** With controls their validators accept, an evaluation returns a decision exactly on acceptable inputs that select
      no control twice and do not trap it; on acceptable inputs a trap alone is the decision error. */
  lemma DecidesIff(e: Evaluator, i: ActionIntent, s: Snapshot, facts: EvaluationFacts)
    requires e.ttlSeconds > 0 && e.canon.Faithful() && ValidControls(s.controls)
    ensures Evaluate(e, i, s, facts).Ok?
            <==> && Acceptable(e, i, s, facts) && SelectedOnce(s.controls, i, s.observedAt)
                 && !Traps(e, i, s, facts)
    ensures Acceptable(e, i, s, facts)
            ==> (Evaluate(e, i, s, facts) == Err(DecisionInvalid) <==> Traps(e, i, s, facts))
  {
    hide SelectControls, Assess, Trapped, SelectedOnce, ValidControls, PointersResolve, ProfilesConsistent;
    hide ControlsSound, FactsGenuine, Compose, BuildDecision, DecisionWellFormed;
    SelectsIff(i, s, e.canon);
    if VerifiedIntent(i) && SelectControls(i, s, e.canon).Ok? {
      AssessesIff(e, i, s, facts);
      if Assess(SelectControls(i, s, e.canon).value, Situation(i, s, facts, e.registry)).Ok? {
        AssessedDecidesIff(e, i, s, facts);
      }
    }
  }

  // ---- Which error ---------------------------------------------------------

  lemma {:induction false} SelectFromFails(controls: seq<Control>, i: ActionIntent, observedAt: int)
    ensures var r := SelectFrom(controls, i, observedAt); r.Err? ==> r.error.PointerInvalid?
  {
    hide PredicateResults, Effective, CoreMatch, ApplyControl, Document;
    if controls != [] {
      SelectFromFails(controls[1..], i, observedAt);
    }
  }

  lemma {:induction false} RetainingFails(fs: seq<ProfileFact>)
    ensures var r := RetainAll(fs); r.Err? ==> r.error == ProfileInconsistent
  {
    hide Join;
    if fs != [] {
      RetainingFails(fs[1..]);
    }
  }

  lemma {:induction false} RequirementsFail(rs: seq<Requirement>, ref: ControlRef, s: Situation)
    ensures var r := AssessRequirements(rs, ref, s); r.Err? ==> r.error == ProfileInconsistent
  {
    hide Join, AssessApproval, RetainAll, MatchingProfiles, AllSatisfied;
    if rs != [] {
      RequirementsFail(rs[1..], ref, s);
      if rs[0].NeedsProfile? {
        RetainingFails(MatchingProfiles(s.facts.profiles, rs[0].profile, ref, s));
      }
    }
  }

  lemma {:induction false} OutcomesFail(os: seq<Applied>, s: Situation)
    ensures var r := AssessOutcomes(os, s); r.Err? ==> r.error == ProfileInconsistent
  {
    hide Join, AssessConditions, AssessRequirements;
    if os != [] {
      OutcomesFail(os[1..], s);
      if os[0].outcome.Normal? {
        RequirementsFail(os[0].outcome.effect.requirements, os[0].ref, s);
      }
    }
  }

  /** The answer of an evaluation, by its inputs: a foreign intent digest, the fault of the snapshot, a pointer that is
      refused, a fact that is not genuine, an inconsistent profile fact that counts, a trap, a control selected twice,
      in this order; and otherwise a decision. */
  lemma EvaluationAnswers(e: Evaluator, i: ActionIntent, s: Snapshot, facts: EvaluationFacts)
    requires e.ttlSeconds > 0 && e.canon.Faithful() && ValidControls(s.controls)
    ensures var r := Evaluate(e, i, s, facts);
            if !VerifiedIntent(i) then r == Err(IntentDigestInvalid)
            else if !VerifiedSnapshot(s) || !ControlsSound(s.controls, s.supportedVerifiers) then
              SnapshotError(s).Some? && r == Err(SnapshotError(s).value)
            else if !PointersResolve(s.controls, i, s.observedAt) then r.Err? && r.error.PointerInvalid?
            else if !FactsGenuine(facts) then r == Err(FactDigestInvalid)
            else if !ProfilesConsistent(e, i, s, facts) then r == Err(ProfileInconsistent)
            else if Traps(e, i, s, facts) then r == Err(DecisionInvalid)
            else if !SelectedOnce(s.controls, i, s.observedAt) then r == Err(TraceInvalid)
            else r.Ok?
  {
    hide SelectFrom, SnapshotError, AssessOutcomes, Trapped, SelectedOnce, ValidControls, PointersResolve, Distinct;
    hide ControlsSound, FactsGenuine, FactsVerified, ProfilesConsistent, Compose, BuildDecision, DecisionWellFormed;
    DecidesIff(e, i, s, facts);
    SnapshotValidIff(s);
    SelectsIff(i, s, e.canon);
    SelectFromFails(s.controls, i, s.observedAt);
    FactsGenuineIff(facts);
    if SelectControls(i, s, e.canon).Ok? {
      AssessesIff(e, i, s, facts);
      OutcomesFail(SelectControls(i, s, e.canon).value, Situation(i, s, facts, e.registry));
    }
  }

  /** No failure of any control routes to a default route. */
  ghost predicate NoDefaultFailures(controls: seq<Control>) {
    forall c :: c in controls ==> AllFailures(c, f => !DefaultFailure(f))
  }

  /** Where no failure routes to a default route, acceptable inputs that select no control twice are all it takes. */
  lemma SafeControlsDecide(e: Evaluator, i: ActionIntent, s: Snapshot, facts: EvaluationFacts)
    requires e.ttlSeconds > 0 && e.canon.Faithful() && ValidControls(s.controls) && NoDefaultFailures(s.controls)
    ensures Evaluate(e, i, s, facts).Ok?
            <==> Acceptable(e, i, s, facts) && SelectedOnce(s.controls, i, s.observedAt)
  {
    hide SelectControls, Assess, Values, AllFailures, FromControl, ValidControlEffect, Evaluate, Trapped, SelectedOnce;
    hide Acceptable;
    DecidesIff(e, i, s, facts);
    if Traps(e, i, s, facts) {
      var os := SelectControls(i, s, e.canon).value;
      var situation := Situation(i, s, facts, e.registry);
      SelectedFromControls(e, i, s);
      ValuesMeet(os, situation, f => !DefaultFailure(f));
      AllValuesValid(e, i, s, facts);
      NoDefaultFailureNoTrap(os, Assess(os, situation).value);
    }
  }

  lemma NoDefaultFailureNoTrap(os: seq<Applied>, a: Assessment)
    requires forall e :: e in Values(os, a) ==> ValidEffect(e) && !RoutesToDefault(e)
    ensures !Trapped(os, a)
  {
    hide Values;
  }
}
