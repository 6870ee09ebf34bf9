/** Assessment of approvals, conditions, evidence and profiles against host-supplied facts. */
module Requirements {
  import opened Wrappers
  import opened Contracts
  import opened Counting
  import opened Predicates
  import opened Selection

  const CORE_PREDICATE_VERIFIER := "controlspec.core.verifier.predicate"
  const SATISFIED_CODE := "controlspec.core.condition.satisfied"
  const INDEPENDENCE_CODE := "controlspec.core.approval.independence_failed"

  datatype FailureEntry = FailureEntry(ref: ControlRef, failure: Failure, code: string)

  datatype Assessment = Assessment(failures: seq<FailureEntry>,
                                   approvals: seq<ApprovalRequirement>,
                                   evidence: seq<EvidenceRequirement>,
                                   conditions: seq<ConditionResult>,
                                   codes: seq<string>,
                                   independenceFailed: bool,
                                   profileOutcomes: seq<Effect>)

  const NOTHING := Assessment([], [], [], [], [], false, [])

  function Join(a: Assessment, b: Assessment): Assessment {
    Assessment(a.failures + b.failures, a.approvals + b.approvals, a.evidence + b.evidence,
               a.conditions + b.conditions, a.codes + b.codes, a.independenceFailed || b.independenceFailed,
               a.profileOutcomes + b.profileOutcomes)
  }

  /** What every requirement is assessed against. */
  datatype Situation = Situation(intent: ActionIntent, snapshot: Snapshot, facts: EvaluationFacts,
                                 registry: set<string>)

  // ---- Approvals -----------------------------------------------------------

  predicate BindsIntent(ref: IntentRef, intent: ActionIntent) {
    ref.ns == intent.ns && ref.intentId == intent.intentId && Some(ref.digest) == intent.intentDigest
  }

  predicate ApprovalMatches(r: ApprovalRequirement, f: ApprovalFact, s: Situation) {
    && s.facts.basis == Some(f.basisRef)
    && BindsIntent(f.intentRef, s.intent)
    && f.requirementId == r.requirementId
    && f.scopeDigest == ContextDigest(r.scope)
    && r.role in f.roles
    && f.approved
    && f.validFrom <= s.snapshot.observedAt < f.validUntil
    && f.authority.digest.Some?
  }

  function LineageIds(a: Actor): set<Text> {
    {a.actorId} + (set i | 0 <= i < |a.lineage| :: a.lineage[i].objectId)
  }

  predicate Related(intent: ActionIntent, f: ApprovalFact) {
    LineageIds(intent.actor) * LineageIds(f.approver) != {}
  }

  function SeparatedActors(f: ApprovalFact, role: string): set<Text> {
    if role in f.separatedRoleActors
    then set i | 0 <= i < |f.separatedRoleActors[role]| :: f.separatedRoleActors[role][i]
    else {}
  }

  predicate IndependenceFails(r: ApprovalRequirement, f: ApprovalFact, intent: ActionIntent) {
    (r.separateFromActor || r.separateFromRoles != [])
    && (|| !f.lineageComplete
        || (exists i :: 0 <= i < |r.separateFromRoles| && r.separateFromRoles[i] !in f.separatedRoleActors)
        || (r.separateFromActor && Related(intent, f))
        || (exists i :: 0 <= i < |r.separateFromRoles|
              && LineageIds(f.approver) * SeparatedActors(f, r.separateFromRoles[i]) != {}))
  }

  function Matching(facts: seq<ApprovalFact>, r: ApprovalRequirement, s: Situation): seq<ApprovalFact> {
    if facts == [] then []
    else (if ApprovalMatches(r, facts[0], s) then [facts[0]] else []) + Matching(facts[1..], r, s)
  }

  function Independent(facts: seq<ApprovalFact>, r: ApprovalRequirement, intent: ActionIntent): seq<ApprovalFact> {
    if facts == [] then []
    else (if IndependenceFails(r, facts[0], intent) then [] else [facts[0]]) + Independent(facts[1..], r, intent)
  }

  predicate AnyDependent(facts: seq<ApprovalFact>, r: ApprovalRequirement, intent: ActionIntent) {
    exists i :: 0 <= i < |facts| && IndependenceFails(r, facts[i], intent)
  }

  function RequirementFailure(ref: ControlRef, failure: Failure): Assessment {
    NOTHING.(failures := [FailureEntry(ref, failure, failure.code)], codes := [failure.code])
  }

  function AssessApproval(r: ApprovalRequirement, ref: ControlRef, s: Situation): Assessment {
    var matching := Matching(s.facts.approvals, r, s);
    var needed := NOTHING.(approvals := [r]);
    var separation := if AnyDependent(matching, r, s.intent)
                      then NOTHING.(codes := [INDEPENDENCE_CODE], independenceFailed := true) else NOTHING;
    var count := if |Independent(matching, r, s.intent)| < r.minimumCount
                 then RequirementFailure(ref, r.failure) else NOTHING;
    Join(needed, Join(separation, count))
  }

  // ---- Conditions ----------------------------------------------------------

  /** A condition is known only through the registered core predicate verifier; anything else is unknown. */
  function ConditionTruth(c: Condition, s: Situation): PredicateResult {
    if c.verifier in s.registry && c.verifier == CORE_PREDICATE_VERIFIER && c.test.Some? then
      match EvaluatePredicate(c.test.value, Document(s.intent))
      case Ok(result) => result
      case Err(_) => Unknown
    else Unknown
  }

  function StatusOf(result: PredicateResult): ConditionStatus {
    match result
    case Yes => ConditionSatisfied
    case No => ConditionFailed
    case Unknown => ConditionUnknown
  }

  function AssessCondition(c: Condition, ref: ControlRef, s: Situation): Assessment {
    var truth := ConditionTruth(c, s);
    var code := if truth == Yes then SATISFIED_CODE else c.failure.code;
    var noted := NOTHING.(conditions := [ConditionResult(c.conditionId, StatusOf(truth), code)]);
    if truth == Yes then noted
    else Join(noted, NOTHING.(failures := [FailureEntry(ref, c.failure, code)], codes := [code]))
  }

  // ---- Profiles ------------------------------------------------------------

  predicate DefaultRoute(kind: RouteKind) {
    kind == BlockRoute || kind == Continue || kind == RecordOnly
  }

  /** The effect a satisfied profile fact retains; inconsistent verdict and route are refused. */
  function ProfileOutcome(f: ProfileFact): Result<Effect, EvaluationError> {
    match f.retainedVerdict
    case Block => BlockedProfile(f)
    case Conflict => BlockedProfile(f)
    case RouteTo =>
      if DefaultRoute(f.retainedRoute.kind) then Err(ProfileInconsistent)
      else Ok(Failed(RouteFailure(f.retainedRoute, f.code)))
    case RequireApproval => Ok(Failed(ApprovalFailure(f.code)))
    case Allow => PermissiveProfile(f, Allow)
    case AllowWithConditions => PermissiveProfile(f, AllowWithConditions)
  }

  function BlockedProfile(f: ProfileFact): Result<Effect, EvaluationError> {
    if f.retainedRoute.kind != BlockRoute then Err(ProfileInconsistent)
    else Ok(Failed(BlockFailure(f.retainedRoute, f.code)))
  }

  function PermissiveProfile(f: ProfileFact, v: EffectVerdict): Result<Effect, EvaluationError> {
    if f.retainedRoute.kind == BlockRoute then Err(ProfileInconsistent)
    else Ok(Normal(ControlEffect(v, f.retainedRoute, [], [], f.code)))
  }

  predicate ProfileMatches(r: ProfileRequirement, f: ProfileFact, ref: ControlRef, s: Situation) {
    && f.verifier == r.verifier
    && BindsIntent(f.intentRef, s.intent)
    && f.controlRef == ref
    && Some(f.snapshotDigest) == s.snapshot.digest
  }

  function MatchingProfiles(facts: seq<ProfileFact>, r: ProfileRequirement, ref: ControlRef, s: Situation)
    : seq<ProfileFact>
  {
    if facts == [] then []
    else (if ProfileMatches(r, facts[0], ref, s) then [facts[0]] else []) + MatchingProfiles(facts[1..], r, ref, s)
  }

  function RetainAll(facts: seq<ProfileFact>): Result<Assessment, EvaluationError> {
    if facts == [] then Ok(NOTHING)
    else
      var f := facts[0];
      match ProfileOutcome(f)
      case Err(e) => Err(e)
      case Ok(outcome) =>
        match RetainAll(facts[1..])
        case Err(e) => Err(e)
        case Ok(rest) =>
          Ok(Join(NOTHING.(profileOutcomes := [outcome], approvals := f.retainedApprovals,
                           evidence := f.retainedEvidence, codes := [f.code]), rest))
  }

  predicate AllSatisfied(facts: seq<ProfileFact>) {
    forall i :: 0 <= i < |facts| ==> facts[i].status == Satisfied
  }

  function AssessProfile(r: ProfileRequirement, ref: ControlRef, s: Situation): Result<Assessment, EvaluationError> {
    if r.verifier !in s.registry then Ok(RequirementFailure(ref, r.failure))
    else
      var matching := MatchingProfiles(s.facts.profiles, r, ref, s);
      if matching == [] || !AllSatisfied(matching) then Ok(RequirementFailure(ref, r.failure))
      else RetainAll(matching)
  }

  // ---- All requirements of all selected controls ---------------------------

  function AssessRequirement(r: Requirement, ref: ControlRef, s: Situation): Result<Assessment, EvaluationError> {
    match r
    case NeedsEvidence(e) => Ok(NOTHING.(evidence := [e]))
    case NeedsApproval(a) => Ok(AssessApproval(a, ref, s))
    case NeedsProfile(p) => AssessProfile(p, ref, s)
  }

  function AssessConditions(cs: seq<Condition>, ref: ControlRef, s: Situation): Assessment {
    if cs == [] then NOTHING
    else Join(AssessCondition(cs[0], ref, s), AssessConditions(cs[1..], ref, s))
  }

  function JoinResults(a: Result<Assessment, EvaluationError>, b: Result<Assessment, EvaluationError>)
    : Result<Assessment, EvaluationError>
  {
    match (a, b)
    case (Err(e), _) => Err(e)
    case (_, Err(e)) => Err(e)
    case (Ok(x), Ok(y)) => Ok(Join(x, y))
  }

  function AssessRequirements(rs: seq<Requirement>, ref: ControlRef, s: Situation)
    : Result<Assessment, EvaluationError>
  {
    if rs == [] then Ok(NOTHING)
    else JoinResults(AssessRequirement(rs[0], ref, s), AssessRequirements(rs[1..], ref, s))
  }

  /** Only effects carry requirements; a control routed to its unknown failure carries none. */
  function AssessOutcome(a: Applied, s: Situation): Result<Assessment, EvaluationError> {
    match a.outcome
    case Failed(_) => Ok(NOTHING)
    case Normal(effect) =>
      JoinResults(Ok(AssessConditions(effect.conditions, a.ref, s)), AssessRequirements(effect.requirements, a.ref, s))
  }

  function AssessOutcomes(outcomes: seq<Applied>, s: Situation): Result<Assessment, EvaluationError> {
    if outcomes == [] then Ok(NOTHING)
    else JoinResults(AssessOutcome(outcomes[0], s), AssessOutcomes(outcomes[1..], s))
  }

  predicate FactsVerified(facts: EvaluationFacts) {
    && (forall i :: 0 <= i < |facts.approvals| ==> VerifiedApproval(facts.approvals[i]))
    && (forall i :: 0 <= i < |facts.evidence| ==> VerifiedEvidence(facts.evidence[i]))
    && (forall i :: 0 <= i < |facts.profiles| ==> VerifiedProfile(facts.profiles[i]))
  }

  function Assess(outcomes: seq<Applied>, s: Situation): Result<Assessment, EvaluationError> {
    if !FactsVerified(s.facts) then Err(FactDigestInvalid) else AssessOutcomes(outcomes, s)
  }

  // ---- The loop form -------------------------------------------------------

  lemma JoinAssociative(a: Assessment, b: Assessment, c: Assessment)
    ensures Join(Join(a, b), c) == Join(a, Join(b, c))
  {
  }

  lemma JoinUnit(a: Assessment)
    ensures Join(a, NOTHING) == a && Join(NOTHING, a) == a
  {
  }

  method AccumulateConditions(start: Assessment, cs: seq<Condition>, ref: ControlRef, s: Situation)
    returns (acc: Assessment)
    ensures acc == Join(start, AssessConditions(cs, ref, s))
  {
    hide Join, AssessCondition;
    acc := start;
    assert cs[0..] == cs;
    for i := 0 to |cs|
      invariant Join(acc, AssessConditions(cs[i..], ref, s)) == Join(start, AssessConditions(cs, ref, s))
    {
      assert cs[i..][1..] == cs[i + 1..];
      JoinAssociative(acc, AssessCondition(cs[i], ref, s), AssessConditions(cs[i + 1..], ref, s));
      acc := Join(acc, AssessCondition(cs[i], ref, s));
    }
    JoinUnit(acc);
  }

  method AccumulateRequirements(start: Assessment, rs: seq<Requirement>, ref: ControlRef, s: Situation)
    returns (r: Result<Assessment, EvaluationError>)
    ensures r == JoinResults(Ok(start), AssessRequirements(rs, ref, s))
  {
    hide Join, AssessRequirement;
    var acc := start;
    assert rs[0..] == rs;
    for i := 0 to |rs|
      invariant JoinResults(Ok(acc), AssessRequirements(rs[i..], ref, s))
                == JoinResults(Ok(start), AssessRequirements(rs, ref, s))
    {
      assert rs[i..][1..] == rs[i + 1..];
      var one := AssessRequirement(rs[i], ref, s);
      if one.Err? {
        return Err(one.error);
      }
      if AssessRequirements(rs[i + 1..], ref, s).Ok? {
        JoinAssociative(acc, one.value, AssessRequirements(rs[i + 1..], ref, s).value);
      }
      acc := Join(acc, one.value);
    }
    JoinUnit(acc);
    r := Ok(acc);
  }

  method AssessByLoop(outcomes: seq<Applied>, s: Situation) returns (r: Result<Assessment, EvaluationError>)
    ensures r == Assess(outcomes, s)
  {
    hide Join, AssessConditions, AssessRequirements, FactsVerified;
    if !FactsVerified(s.facts) {
      return Err(FactDigestInvalid);
    }
    var acc := NOTHING;
    assert outcomes[0..] == outcomes;
    StartFromNothing(AssessOutcomes(outcomes, s));
    for i := 0 to |outcomes|
      invariant JoinResults(Ok(acc), AssessOutcomes(outcomes[i..], s)) == AssessOutcomes(outcomes, s)
    {
      assert outcomes[i..][1..] == outcomes[i + 1..];
      var rest := AssessOutcomes(outcomes[i + 1..], s);
      match outcomes[i].outcome
      case Failed(_) =>
        StartFromNothing(rest);
      case Normal(effect) =>
        var conditions := AccumulateConditions(acc, effect.conditions, outcomes[i].ref, s);
        var all := AccumulateRequirements(conditions, effect.requirements, outcomes[i].ref, s);
        Regroup(acc, AssessConditions(effect.conditions, outcomes[i].ref, s),
                AssessRequirements(effect.requirements, outcomes[i].ref, s), rest);
        if all.Err? {
          return Err(all.error);
        }
        acc := all.value;
    }
    JoinUnit(acc);
    r := Ok(acc);
  }

  lemma StartFromNothing(r: Result<Assessment, EvaluationError>)
    ensures JoinResults(Ok(NOTHING), r) == r
  {
    if r.Ok? {
      JoinUnit(r.value);
    }
  }

  lemma Regroup(acc: Assessment, c: Assessment, q: Result<Assessment, EvaluationError>,
                rest: Result<Assessment, EvaluationError>)
    ensures JoinResults(Ok(acc), JoinResults(JoinResults(Ok(c), q), rest))
            == JoinResults(JoinResults(Ok(Join(acc, c)), q), rest)
  {
    hide Join;
    if q.Ok? && rest.Ok? {
      JoinAssociative(c, q.value, rest.value);
      JoinAssociative(acc, c, Join(q.value, rest.value));
      JoinAssociative(Join(acc, c), q.value, rest.value);
    }
  }

  // ---- What a clean assessment means ---------------------------------------

  /** No failure, no failed independence, and nothing but permissive retained outcomes. */
  predicate Clean(a: Assessment) {
    && a.failures == []
    && !a.independenceFailed
    && forall i :: 0 <= i < |a.profileOutcomes| ==> Permissive(EffectVerdictOf(a.profileOutcomes[i]))
  }

  lemma CleanJoin(a: Assessment, b: Assessment)
    ensures Clean(Join(a, b)) <==> Clean(a) && Clean(b)
  {
    var p := a.profileOutcomes + b.profileOutcomes;
    if Clean(Join(a, b)) {
      forall i | 0 <= i < |b.profileOutcomes|
        ensures Permissive(EffectVerdictOf(b.profileOutcomes[i]))
      {
        assert p[|a.profileOutcomes| + i] == b.profileOutcomes[i];
      }
      forall i | 0 <= i < |a.profileOutcomes|
        ensures Permissive(EffectVerdictOf(a.profileOutcomes[i]))
      {
        assert p[i] == a.profileOutcomes[i];
      }
    }
  }

  /** The approval fact is about this intent and this requirement, was given on the decision the facts rest on, by
      someone with the role and a known authority, and counts now. */
  predicate Answers(f: ApprovalFact, r: ApprovalRequirement, s: Situation) {
    && s.facts.basis.Some? && f.basisRef == s.facts.basis.value
    && f.intentRef.ns == s.intent.ns && f.intentRef.intentId == s.intent.intentId
    && s.intent.intentDigest.Some? && f.intentRef.digest == s.intent.intentDigest.value
    && f.requirementId == r.requirementId && f.scopeDigest == OfJson(JObj(r.scope)) && r.role in f.roles
    && f.approved && f.authority.digest.Some?
    && f.validFrom <= s.snapshot.observedAt && s.snapshot.observedAt < f.validUntil
  }

  /** The actor goes by this identifier, itself or in its lineage. */
  predicate Known(a: Actor, id: Text) {
    id == a.actorId || exists ref :: ref in a.lineage && ref.objectId == id
  }

  /** As far as the requirement separates the approver from anyone: all is known about the approver's lineage and about
      who held the separated roles, nobody of that lineage held one, and nobody of it is the actor or in its lineage. */
  predicate Apart(f: ApprovalFact, r: ApprovalRequirement, actor: Actor) {
    r.separateFromActor || r.separateFromRoles != []
    ==> && f.lineageComplete
        && (forall role :: role in r.separateFromRoles
              ==> && role in f.separatedRoleActors
                  && forall id :: id in f.separatedRoleActors[role] ==> !Known(f.approver, id))
        && (r.separateFromActor
            ==> !Known(f.approver, actor.actorId)
                && forall ref :: ref in actor.lineage ==> !Known(f.approver, ref.objectId))
  }

  /** Enough facts answer the requirement, and the approver of every one of them is apart. */
  predicate ApprovalServed(r: ApprovalRequirement, s: Situation) {
    && Count(s.facts.approvals, (f: ApprovalFact) => Answers(f, r, s)) >= r.minimumCount
    && forall f :: f in s.facts.approvals && Answers(f, r, s) ==> Apart(f, r, s.intent.actor)
  }

  /** The profile fact is about this requirement of this control, for this intent and snapshot. */
  predicate Assesses(f: ProfileFact, r: ProfileRequirement, ref: ControlRef, s: Situation) {
    && f.verifier == r.verifier && f.controlRef == ref
    && f.intentRef.ns == s.intent.ns && f.intentRef.intentId == s.intent.intentId
    && s.intent.intentDigest.Some? && f.intentRef.digest == s.intent.intentDigest.value
    && s.snapshot.digest.Some? && f.snapshotDigest == s.snapshot.digest.value
  }

  /** The verifier is registered, there are facts, and all of them are satisfied. */
  predicate ProfileCounts(r: ProfileRequirement, ref: ControlRef, s: Situation) {
    && r.verifier in s.registry && (exists f :: f in s.facts.profiles && Assesses(f, r, ref, s))
    && forall f :: f in s.facts.profiles && Assesses(f, r, ref, s) ==> f.status == Satisfied
  }

  /** The facts count, and all of them retain a permissive verdict. */
  predicate ProfileServed(r: ProfileRequirement, ref: ControlRef, s: Situation) {
    && ProfileCounts(r, ref, s)
    && forall f :: f in s.facts.profiles && Assesses(f, r, ref, s)
         ==> f.retainedVerdict == Allow || f.retainedVerdict == AllowWithConditions
  }

  /** The registered core verifier confirms the condition's predicate. */
  predicate ConditionHolds(c: Condition, s: Situation) {
    && c.verifier == CORE_PREDICATE_VERIFIER && CORE_PREDICATE_VERIFIER in s.registry
    && c.test.Some? && Confirmed(c.test.value, Document(s.intent))
  }

  predicate RequirementServed(r: Requirement, ref: ControlRef, s: Situation) {
    && (r.NeedsApproval? ==> ApprovalServed(r.approval, s))
    && (r.NeedsProfile? ==> ProfileServed(r.profile, ref, s))
  }

  /** Every condition holds and every requirement is served. */
  predicate EffectServed(e: ControlEffect, ref: ControlRef, s: Situation) {
    && (forall c :: c in e.conditions ==> ConditionHolds(c, s))
    && (forall r :: r in e.requirements ==> RequirementServed(r, ref, s))
  }

  // ---- The source's tests are these ----------------------------------------

  lemma AnswersIff(r: ApprovalRequirement, f: ApprovalFact, s: Situation)
    ensures ApprovalMatches(r, f, s) <==> Answers(f, r, s)
  {
  }

  lemma KnownIff(a: Actor, id: Text)
    ensures id in LineageIds(a) <==> Known(a, id)
  {
    if ref :| ref in a.lineage && ref.objectId == id {
      var k :| 0 <= k < |a.lineage| && a.lineage[k] == ref;
      assert a.lineage[k].objectId in LineageIds(a);
    }
  }

  lemma RelatedIff(intent: ActionIntent, f: ApprovalFact)
    ensures !Related(intent, f)
            <==> !Known(f.approver, intent.actor.actorId)
                 && forall ref :: ref in intent.actor.lineage ==> !Known(f.approver, ref.objectId)
  {
    hide LineageIds, Known;
    forall id: Text
      ensures id in LineageIds(f.approver) <==> Known(f.approver, id)
      ensures id in LineageIds(intent.actor) <==> Known(intent.actor, id)
    {
      KnownIff(f.approver, id);
      KnownIff(intent.actor, id);
    }
    KnownActor(intent.actor);
    var shared := LineageIds(intent.actor) * LineageIds(f.approver);
    if Related(intent, f) {
      var id :| id in shared;
      KnownHow(intent.actor, id);
    }
    assert Known(f.approver, intent.actor.actorId) ==> intent.actor.actorId in shared;
    assert forall ref :: ref in intent.actor.lineage && Known(f.approver, ref.objectId) ==> ref.objectId in shared;
  }

  lemma KnownActor(a: Actor)
    ensures Known(a, a.actorId) && forall ref :: ref in a.lineage ==> Known(a, ref.objectId)
  {
  }

  lemma KnownHow(a: Actor, id: Text)
    requires Known(a, id)
    ensures id == a.actorId || exists ref :: ref in a.lineage && ref.objectId == id
  {
  }

  lemma RoleApart(f: ApprovalFact, role: string)
    requires role in f.separatedRoleActors
    ensures LineageIds(f.approver) * SeparatedActors(f, role) == {}
            <==> forall id :: id in f.separatedRoleActors[role] ==> !Known(f.approver, id)
  {
    hide LineageIds, Known;
    var ids := f.separatedRoleActors[role];
    forall id: Text
      ensures id in LineageIds(f.approver) <==> Known(f.approver, id)
      ensures id in SeparatedActors(f, role) <==> id in ids
    {
      KnownIff(f.approver, id);
      assert id in ids ==> exists k :: 0 <= k < |ids| && ids[k] == id;
    }
    assert forall id :: id in ids && Known(f.approver, id)
             ==> id in LineageIds(f.approver) * SeparatedActors(f, role);
  }

  lemma ApartIff(r: ApprovalRequirement, f: ApprovalFact, intent: ActionIntent)
    ensures IndependenceFails(r, f, intent) <==> !Apart(f, r, intent.actor)
  {
    hide Known, LineageIds, SeparatedActors, Related;
    RelatedIff(intent, f);
    forall role | role in f.separatedRoleActors
      ensures LineageIds(f.approver) * SeparatedActors(f, role) == {}
              <==> forall id :: id in f.separatedRoleActors[role] ==> !Known(f.approver, id)
    {
      RoleApart(f, role);
    }
    assert forall i :: 0 <= i < |r.separateFromRoles| ==> r.separateFromRoles[i] in r.separateFromRoles;
  }

  lemma {:induction false} MatchingMembers(facts: seq<ApprovalFact>, r: ApprovalRequirement, s: Situation)
    ensures forall f :: f in Matching(facts, r, s) <==> f in facts && Answers(f, r, s)
  {
    hide ApprovalMatches, Answers;
    if facts != [] {
      MatchingMembers(facts[1..], r, s);
      AnswersIff(r, facts[0], s);
      assert facts == [facts[0]] + facts[1..];
    }
  }

  lemma {:induction false} MatchingCount(facts: seq<ApprovalFact>, r: ApprovalRequirement, s: Situation)
    ensures |Matching(facts, r, s)| == Count(facts, (f: ApprovalFact) => Answers(f, r, s))
  {
    hide ApprovalMatches, Answers;
    if facts != [] {
      MatchingCount(facts[1..], r, s);
      AnswersIff(r, facts[0], s);
    }
  }

  lemma AllApartIff(r: ApprovalRequirement, s: Situation)
    ensures !AnyDependent(Matching(s.facts.approvals, r, s), r, s.intent)
            <==> forall f :: f in s.facts.approvals && Answers(f, r, s) ==> Apart(f, r, s.intent.actor)
  {
    hide Matching, IndependenceFails, Answers, Apart;
    var matching := Matching(s.facts.approvals, r, s);
    MatchingMembers(s.facts.approvals, r, s);
    forall f: ApprovalFact
      ensures IndependenceFails(r, f, s.intent) <==> !Apart(f, r, s.intent.actor)
    {
      ApartIff(r, f, s.intent);
    }
    if !AnyDependent(matching, r, s.intent) {
      forall f | f in s.facts.approvals && Answers(f, r, s)
        ensures Apart(f, r, s.intent.actor)
      {
        assert f in matching;
        var k :| 0 <= k < |matching| && matching[k] == f;
      }
    }
    if k :| 0 <= k < |matching| && IndependenceFails(r, matching[k], s.intent) {
      assert matching[k] in matching;
    }
  }

  lemma ConditionIff(c: Condition, s: Situation)
    ensures ConditionTruth(c, s) == Yes <==> ConditionHolds(c, s)
  {
    hide EvaluatePredicate, Confirmed, Document;
    if c.test.Some? {
      JudgedIff(c.test.value, Document(s.intent));
    }
  }

  lemma {:induction false} MatchingProfilesMembers(facts: seq<ProfileFact>, r: ProfileRequirement, ref: ControlRef,
                                                   s: Situation)
    ensures forall f :: f in MatchingProfiles(facts, r, ref, s) <==> f in facts && Assesses(f, r, ref, s)
  {
    if facts != [] {
      MatchingProfilesMembers(facts[1..], r, ref, s);
      assert facts == [facts[0]] + facts[1..];
    }
  }

  lemma ProfileCountsIff(r: ProfileRequirement, ref: ControlRef, s: Situation)
    ensures var matching := MatchingProfiles(s.facts.profiles, r, ref, s);
            && (ProfileCounts(r, ref, s) <==> r.verifier in s.registry && matching != [] && AllSatisfied(matching))
            && (ProfileServed(r, ref, s)
                <==> && ProfileCounts(r, ref, s)
                     && forall k :: 0 <= k < |matching| ==> Permissive(matching[k].retainedVerdict))
  {
    hide MatchingProfiles, Assesses;
    var matching := MatchingProfiles(s.facts.profiles, r, ref, s);
    MatchingProfilesMembers(s.facts.profiles, r, ref, s);
    assert matching != [] ==> matching[0] in matching;
    assert forall k :: 0 <= k < |matching| ==> matching[k] in matching;
    assert forall f :: f in matching ==> exists k :: 0 <= k < |matching| && matching[k] == f;
  }

  // ---- A clean assessment serves everything --------------------------------

  lemma {:induction false} AllIndependent(facts: seq<ApprovalFact>, r: ApprovalRequirement, intent: ActionIntent)
    requires !AnyDependent(facts, r, intent)
    ensures Independent(facts, r, intent) == facts
  {
    if facts != [] {
      assert facts == [facts[0]] + facts[1..];
      assert forall i :: 0 <= i < |facts[1..]| ==> facts[1..][i] == facts[i + 1];
      AllIndependent(facts[1..], r, intent);
    }
  }

  lemma ApprovalCleanIff(r: ApprovalRequirement, ref: ControlRef, s: Situation)
    ensures Clean(AssessApproval(r, ref, s)) <==> ApprovalServed(r, s)
  {
    hide Matching, AnyDependent, Independent, Answers, Apart;
    var matching := Matching(s.facts.approvals, r, s);
    MatchingCount(s.facts.approvals, r, s);
    AllApartIff(r, s);
    if !AnyDependent(matching, r, s.intent) {
      AllIndependent(matching, r, s.intent);
    }
  }

  lemma {:induction false} RetainCleanIff(facts: seq<ProfileFact>)
    requires RetainAll(facts).Ok?
    ensures Clean(RetainAll(facts).value)
            <==> forall i :: 0 <= i < |facts| ==> Permissive(facts[i].retainedVerdict)
  {
    if facts != [] {
      var f := facts[0];
      RetainCleanIff(facts[1..]);
      var first := NOTHING.(profileOutcomes := [ProfileOutcome(f).value], approvals := f.retainedApprovals,
                            evidence := f.retainedEvidence, codes := [f.code]);
      CleanJoin(first, RetainAll(facts[1..]).value);
      RetainedVerdict(f);
      assert first.profileOutcomes[0] == ProfileOutcome(f).value;
      assert facts == [f] + facts[1..];
    }
  }

  lemma RetainedVerdict(f: ProfileFact)
    requires ProfileOutcome(f).Ok?
    ensures Permissive(EffectVerdictOf(ProfileOutcome(f).value)) <==> Permissive(f.retainedVerdict)
    ensures !EffectVerdictOf(ProfileOutcome(f).value).Conflict?
  {
  }

  lemma RequirementCleanIff(r: Requirement, ref: ControlRef, s: Situation)
    requires AssessRequirement(r, ref, s).Ok?
    ensures Clean(AssessRequirement(r, ref, s).value) <==> RequirementServed(r, ref, s)
  {
    hide MatchingProfiles, RetainAll, AssessApproval, ApprovalServed, AllSatisfied, ProfileCounts, ProfileServed;
    match r
    case NeedsEvidence(_) =>
    case NeedsApproval(a) => ApprovalCleanIff(a, ref, s);
    case NeedsProfile(p) =>
      var matching := MatchingProfiles(s.facts.profiles, p, ref, s);
      ProfileCountsIff(p, ref, s);
      if p.verifier in s.registry && matching != [] && AllSatisfied(matching) {
        RetainCleanIff(matching);
      }
  }

  lemma {:induction false} RequirementsCleanIff(rs: seq<Requirement>, ref: ControlRef, s: Situation)
    requires AssessRequirements(rs, ref, s).Ok?
    ensures Clean(AssessRequirements(rs, ref, s).value)
            <==> forall r :: r in rs ==> RequirementServed(r, ref, s)
  {
    hide AssessRequirement, RequirementServed, Join, Clean;
    if rs == [] {
      assert Clean(NOTHING) by { CleanNothing(); }
    } else {
      RequirementsCleanIff(rs[1..], ref, s);
      RequirementCleanIff(rs[0], ref, s);
      CleanJoin(AssessRequirement(rs[0], ref, s).value, AssessRequirements(rs[1..], ref, s).value);
      assert rs == [rs[0]] + rs[1..];
    }
  }

  lemma CleanNothing()
    ensures Clean(NOTHING)
  {
  }

  lemma {:induction false} ConditionsCleanIff(cs: seq<Condition>, ref: ControlRef, s: Situation)
    ensures Clean(AssessConditions(cs, ref, s))
            <==> forall c :: c in cs ==> ConditionHolds(c, s)
  {
    hide ConditionTruth, ConditionHolds;
    if cs != [] {
      ConditionIff(cs[0], s);
      ConditionsCleanIff(cs[1..], ref, s);
      CleanJoin(AssessCondition(cs[0], ref, s), AssessConditions(cs[1..], ref, s));
      assert cs == [cs[0]] + cs[1..];
    }
  }

  lemma {:induction false} OutcomesCleanIff(outcomes: seq<Applied>, s: Situation)
    requires AssessOutcomes(outcomes, s).Ok?
    ensures Clean(AssessOutcomes(outcomes, s).value)
            <==> forall a :: a in outcomes && a.outcome.Normal? ==> EffectServed(a.outcome.effect, a.ref, s)
  {
    hide Join, Clean, EffectServed, AssessConditions, AssessRequirements;
    if outcomes == [] {
      CleanNothing();
    } else {
      OutcomesCleanIff(outcomes[1..], s);
      var a := outcomes[0];
      OutcomeCleanIff(a, s);
      CleanJoin(AssessOutcome(a, s).value, AssessOutcomes(outcomes[1..], s).value);
      assert outcomes == [a] + outcomes[1..];
    }
  }

  lemma OutcomeCleanIff(a: Applied, s: Situation)
    requires AssessOutcome(a, s).Ok?
    ensures Clean(AssessOutcome(a, s).value)
            <==> (a.outcome.Normal? ==> EffectServed(a.outcome.effect, a.ref, s))
  {
    hide Join, Clean, AssessConditions, AssessRequirements, RequirementServed, ConditionHolds;
    match a.outcome
    case Failed(_) => CleanNothing();
    case Normal(e) =>
      ConditionsCleanIff(e.conditions, a.ref, s);
      RequirementsCleanIff(e.requirements, a.ref, s);
      CleanJoin(AssessConditions(e.conditions, a.ref, s), AssessRequirements(e.requirements, a.ref, s).value);
  }
}
