/** The portable objects: actions, controls, facts, decisions, and the digests that bind them.

    A digest is a value that carries what was hashed, so equal digests mean equal content. The objects refer to
    each other through their digests, which is why they are declared together. Instants are microseconds since
    1970; module `Instant` shows that comparing their text compares these numbers. */
module Contracts {
  import opened Wrappers

  // ---- Text, JSON and digests ----------------------------------------------

  /** A string: literal text, a prefix followed by a digest in hexadecimal, or the n-th random token. */
  datatype Text = Lit(s: string) | Hashed(prefix: string, digest: Digest) | Random(n: nat)

  datatype Json =
    | JNull
    | JBool(b: bool)
    | JInt(n: int)
    | JStr(t: Text)
    | JArr(items: seq<Json>)
    | JObj(fields: map<string, Json>)

  datatype Digest =
    | OfJson(json: Json)
    | OfIntent(intent: ActionIntent)
    | OfControl(control: Control)
    | OfControls(controls: seq<Control>)
    | OfControlRefs(refs: seq<ControlRef>)
    | OfSnapshot(snapshot: Snapshot)
    | OfApproval(approval: ApprovalFact)
    | OfEvidence(evidence: EvidenceFact)
    | OfProfile(profile: ProfileFact)
    | OfFacts(facts: EvaluationFacts)
    | OfEnvelope(envelope: DecisionEnvelope)
    | OfDecision(decision: Decision)
    | OfObservation(observation: Observation)
    | OfReceiptEnvelope(receiptEnvelope: ReceiptEnvelope)
    | OfReceipt(receipt: Receipt)

  // ---- Vocabulary ----------------------------------------------------------

  datatype Verdict = Allow | AllowWithConditions | RequireApproval | RouteTo | Block | Conflict

  type EffectVerdict = v: Verdict | v != Conflict witness Allow

  datatype RouteKind =
    | Continue | AskUser | HumanReview | SpecialistAgent | DifferentModel
    | RedactThenContinue | NarrowAction | BlockRoute | RecordOnly
    | ExtensionRoute(name: string)

  datatype ActorType = Agent | Human | Service | Workflow | Application | Organization

  datatype CanonicalAction = Observe | Infer | Communicate | Modify | Commit | Transfer | Delegate

  datatype ControlStatus = Draft | Published | Retired

  // ---- References ----------------------------------------------------------

  datatype ObjectRef = ObjectRef(ns: string, objectType: string, objectId: Text,
                                 version: Option<string>, digest: Option<Digest>)

  datatype ControlRef = ControlRef(ns: string, controlId: string, version: string, digest: Digest)

  datatype IntentRef = IntentRef(ns: string, intentId: string, digest: Digest)

  datatype DecisionRef = DecisionRef(ns: string, decisionId: Text, digest: Digest)

  datatype EvidenceRef = EvidenceRef(ns: string, evidenceId: string, digest: Digest, kind: string)

  // ---- Actions -------------------------------------------------------------

  datatype Actor = Actor(ns: string, actorId: Text, version: string, kind: ActorType,
                         owner: Option<ObjectRef>, lineage: seq<ObjectRef>, attributes: map<string, Json>)

  datatype Resource = Resource(ns: string, resourceId: string, version: string, resourceType: string,
                               businessId: Option<string>, attributes: map<string, Json>)

  datatype Action = Action(actionType: CanonicalAction, domainAction: string, requestedEffect: Json)

  datatype Route = Route(ns: string, routeId: string, kind: RouteKind, target: Option<ObjectRef>,
                         parameters: map<string, Json>, requiresRecheck: bool)

  /** `rest` holds the bound fields that no branch reads: requested route, evidence, cost and retry count. */
  datatype ActionIntent = ActionIntent(ns: string, intentId: string, actor: Actor, action: Action,
                                       resource: Resource, context: map<string, Json>, rest: Json,
                                       requestedAt: int, idempotencyKey: string,
                                       contextDigest: Digest, intentDigest: Option<Digest>)

  // ---- Controls ------------------------------------------------------------

  datatype Comparison = Lt | Lte | Gt | Gte

  datatype Predicate =
    | Eq(path: string, value: Json)
    | In(path: string, values: seq<Json>)
    | Compare(path: string, comparison: Comparison, bound: Json)
    | Exists(path: string, expected: bool)

  /** A failure effect; only block and route failures carry a route. */
  datatype Failure =
    | ApprovalFailure(code: string)
    | RouteFailure(route: Route, code: string)
    | BlockFailure(route: Route, code: string)

  datatype EvidenceSeparation = EvidenceSeparation(producerNotActor: bool, certifierNotActor: bool,
                                                   producerCertifierDistinct: bool)

  datatype EvidenceRequirement = EvidenceRequirement(requirementId: string, failure: Failure, kind: string,
                                                     subject: string, minimumCount: nat,
                                                     maxAgeSeconds: Option<nat>, verifier: string,
                                                     separation: EvidenceSeparation)

  datatype ApprovalRequirement = ApprovalRequirement(requirementId: string, failure: Failure, role: string,
                                                     scope: map<string, Json>, minimumCount: nat,
                                                     validitySeconds: Option<nat>, separateFromActor: bool,
                                                     separateFromRoles: seq<string>)

  datatype ProfileRequirement = ProfileRequirement(requirementId: string, failure: Failure, verifier: string,
                                                   parameters: map<string, Json>)

  datatype Requirement =
    | NeedsEvidence(evidence: EvidenceRequirement)
    | NeedsApproval(approval: ApprovalRequirement)
    | NeedsProfile(profile: ProfileRequirement)

  /** `test` is what the core predicate parameter parses to, if it parses. */
  datatype Condition = Condition(conditionId: string, verifier: string, test: Option<Predicate>,
                                 failure: Failure)

  datatype ControlEffect = ControlEffect(verdict: EffectVerdict, route: Route, requirements: seq<Requirement>,
                                         conditions: seq<Condition>, code: string)

  datatype Effect = Normal(effect: ControlEffect) | Failed(failure: Failure)

  datatype ControlMatch = ControlMatch(actorTypes: set<ActorType>, actionTypes: set<CanonicalAction>,
                                       domainActions: set<string>, resourceTypes: set<string>,
                                       predicates: seq<Predicate>)

  datatype Control = Control(ns: string, controlId: string, version: string, status: ControlStatus,
                             effectiveFrom: Option<int>, effectiveUntil: Option<int>, match_: ControlMatch,
                             onUnknown: Failure, effect: ControlEffect, digest: Option<Digest>)

  datatype AuthorityMode = HostAuthorized | NonAuthoritative

  datatype Snapshot = Snapshot(controls: seq<Control>, observedAt: int, mode: AuthorityMode,
                               supportedVerifiers: set<string>, digest: Option<Digest>)

  // ---- Facts ---------------------------------------------------------------

  datatype ApprovalFact = ApprovalFact(approvalId: Text, intentRef: IntentRef, basisRef: DecisionRef,
                                       requirementId: string, scopeDigest: Digest, approver: Actor,
                                       authority: ObjectRef, roles: seq<string>,
                                       separatedRoleActors: map<string, seq<Text>>, lineageComplete: bool,
                                       approved: bool, validFrom: int, validUntil: int, digest: Option<Digest>)

  datatype EvidenceFact = EvidenceFact(evidenceRef: EvidenceRef, intentRef: IntentRef, kind: string,
                                       subject: string, producer: Text, producerLineage: seq<Text>,
                                       producerLineageComplete: bool, certifier: Text,
                                       certifierLineage: seq<Text>, certifierLineageComplete: bool,
                                       verifiedAt: int, digest: Option<Digest>)

  datatype ProfileStatus = Satisfied | ProfileFailed | ProfileUnknown

  datatype ProfileFact = ProfileFact(verifier: string, intentRef: IntentRef, controlRef: ControlRef,
                                     snapshotDigest: Digest, status: ProfileStatus, retainedVerdict: Verdict,
                                     retainedRoute: Route, code: string,
                                     retainedApprovals: seq<ApprovalRequirement>,
                                     retainedEvidence: seq<EvidenceRequirement>, digest: Option<Digest>)

  datatype EvaluationFacts = EvaluationFacts(basis: Option<DecisionRef>, approvals: seq<ApprovalFact>,
                                             evidence: seq<EvidenceFact>, profiles: seq<ProfileFact>)

  // ---- Decisions and receipts ----------------------------------------------

  datatype ConditionStatus = ConditionSatisfied | ConditionFailed | ConditionUnknown

  datatype ConditionResult = ConditionResult(conditionId: string, status: ConditionStatus, code: string)

  datatype DecisionEnvelope = DecisionEnvelope(intentRef: IntentRef, snapshotDigest: Digest, factsDigest: Digest,
                                               appliedControls: seq<ControlRef>, verdict: Verdict, route: Route,
                                               evaluatedAt: int)

  datatype Binding = Binding(actorNs: string, actorId: Text, actorVersion: string, actionType: CanonicalAction,
                             domainAction: string, resourceNs: string, resourceId: string,
                             resourceVersion: string, resourceType: string, contextDigest: Digest,
                             intentDigest: Digest, controlSetDigest: Digest)

  datatype Decision = Decision(ns: string, decisionId: Text, intentRef: IntentRef, evaluatedAt: int,
                               expiresAt: int, predecessor: Option<DecisionRef>, verdict: Verdict, route: Route,
                               conditions: seq<ConditionResult>, approvalRequirements: seq<ApprovalRequirement>,
                               requiredEvidence: seq<EvidenceRequirement>, appliedControls: seq<ControlRef>,
                               codes: seq<string>, binding: Binding, requiresRecheck: bool, conformance: bool,
                               digest: Option<Digest>)

  datatype ExecutionOutcome = Succeeded | ExecutionFailed | Aborted | NotExecuted

  datatype Observation = Observation(executionRef: ObjectRef, actualRoute: Option<Route>,
                                     outcome: ExecutionOutcome, occurredAt: int, recordedAt: int,
                                     digest: Option<Digest>)

  datatype ReceiptStatus = Complete | Incomplete | ReceiptFailed

  datatype ReceiptOutcome = OutcomeCompleted | OutcomeBlocked | OutcomeIncomplete | OutcomeFailed

  datatype ReceiptEnvelope = ReceiptEnvelope(decisionRef: DecisionRef, intentRef: IntentRef,
                                             observationDigest: Option<Digest>, sequence: nat,
                                             predecessor: Option<ObjectRef>)

  datatype Receipt = Receipt(ns: string, receiptId: Text, sequence: nat, decisionRef: DecisionRef,
                             intentRef: IntentRef, actualRoute: Option<Route>, reported: Json,
                             verifiedEvidence: seq<EvidenceRef>, missingEvidence: seq<string>,
                             executionOutcome: ExecutionOutcome, outcome: ReceiptOutcome, status: ReceiptStatus,
                             occurredAt: int, recordedAt: int, predecessor: Option<ObjectRef>,
                             conformance: bool, digest: Option<Digest>)

  // ---- Digest computation and verification ---------------------------------

  function ContextDigest(context: map<string, Json>): Digest { OfJson(JObj(context)) }

  function FinalizeIntent(i: ActionIntent): ActionIntent {
    i.(intentDigest := Some(OfIntent(i.(intentDigest := None))))
  }

  predicate VerifiedIntent(i: ActionIntent) { i.intentDigest == Some(OfIntent(i.(intentDigest := None))) }

  function FinalizeControl(c: Control): Control { c.(digest := Some(OfControl(c.(digest := None)))) }

  predicate VerifiedControl(c: Control) { c.digest == Some(OfControl(c.(digest := None))) }

  function FinalizeSnapshot(s: Snapshot): Snapshot { s.(digest := Some(OfSnapshot(s.(digest := None)))) }

  predicate VerifiedSnapshot(s: Snapshot) { s.digest == Some(OfSnapshot(s.(digest := None))) }

  function FinalizeApproval(f: ApprovalFact): ApprovalFact { f.(digest := Some(OfApproval(f.(digest := None)))) }

  predicate VerifiedApproval(f: ApprovalFact) { f.digest == Some(OfApproval(f.(digest := None))) }

  predicate VerifiedEvidence(f: EvidenceFact) { f.digest == Some(OfEvidence(f.(digest := None))) }

  predicate VerifiedProfile(f: ProfileFact) { f.digest == Some(OfProfile(f.(digest := None))) }

  function FinalizeDecision(d: Decision): Decision { d.(digest := Some(OfDecision(d.(digest := None)))) }

  predicate VerifiedDecision(d: Decision) { d.digest == Some(OfDecision(d.(digest := None))) }

  function FinalizeObservation(o: Observation): Observation { o.(digest := Some(OfObservation(o.(digest := None)))) }

  predicate VerifiedObservation(o: Observation) { o.digest == Some(OfObservation(o.(digest := None))) }

  function FinalizeReceipt(r: Receipt): Receipt { r.(digest := Some(OfReceipt(r.(digest := None)))) }

  // ---- Shared reading of effects -------------------------------------------

  predicate Permissive(v: Verdict) { v == Allow || v == AllowWithConditions }

  function FailureVerdict(f: Failure): Verdict {
    match f
    case ApprovalFailure(_) => RequireApproval
    case RouteFailure(_, _) => RouteTo
    case BlockFailure(_, _) => Block
  }

  function EffectVerdictOf(e: Effect): Verdict {
    match e
    case Normal(c) => c.verdict
    case Failed(f) => FailureVerdict(f)
  }

  function EffectRoute(e: Effect): Option<Route> {
    match e
    case Normal(c) => Some(c.route)
    case Failed(ApprovalFailure(_)) => None
    case Failed(RouteFailure(route, _)) => Some(route)
    case Failed(BlockFailure(route, _)) => Some(route)
  }

  function EffectCode(e: Effect): string {
    match e
    case Normal(c) => c.code
    case Failed(f) => f.code
  }
}
