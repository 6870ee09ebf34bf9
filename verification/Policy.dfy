/** The synthetic purchase: requests, trusted scopes, the three example controls, and what they decide. */
module Policy {
  import opened Wrappers
  import opened Contracts
  import opened Ordering
  import opened Pointer
  import opened Predicates
  import opened Selection
  import opened Requirements
  import opened Composition
  import opened Evaluator

  const NAMESPACE := "controlspec.synthetic.purchase"
  const LIMIT := 7500
  const ENGINE_TTL := 120

  // ---- Requests and scopes -------------------------------------------------

  predicate ActionIdChar(c: char) {
    'A' <= c <= 'Z' || 'a' <= c <= 'z' || '0' <= c <= '9' || c == '_' || c == '-'
  }

  /** Currency, merchant and schema version are fixed by the schema. */
  datatype RawRequest = PurchaseRequest(actionId: string, amountMinor: int, recurring: bool)

  predicate ValidRequest(r: RawRequest) {
    && 1 <= |r.actionId| <= 64 && (forall i :: 0 <= i < |r.actionId| ==> ActionIdChar(r.actionId[i]))
    && 0 < r.amountMinor <= 1_000_000_000
  }

  type PurchaseRequest = r: RawRequest | ValidRequest(r) witness PurchaseRequest("a", 1, false)

  datatype TrustedScope = TrustedScope(gatewayId: string, sandboxId: string)

  function RequestJson(r: PurchaseRequest): Json {
    JObj(map["schema_version" := Name("1"), "action_id" := Name(r.actionId), "amount_minor" := JInt(r.amountMinor),
             "currency" := Name("USD"), "merchant" := Name("demo-store"), "recurring" := JBool(r.recurring)])
  }

  function RequestDigest(r: PurchaseRequest): Digest { OfJson(RequestJson(r)) }

  function ScopeJson(s: TrustedScope): Json {
    JObj(map["gateway_id" := Name(s.gatewayId), "sandbox_id" := Name(s.sandboxId)])
  }

  function ScopeKey(s: TrustedScope): Digest { OfJson(ScopeJson(s)) }

  function AgentId(s: TrustedScope): Text { Hashed("agent-", ScopeKey(s)) }

  /** A request digest names one request. */
  lemma RequestDigestInjective(r: PurchaseRequest, r': PurchaseRequest)
    requires RequestDigest(r) == RequestDigest(r')
    ensures r == r'
  {
    var f, f' := RequestJson(r).fields, RequestJson(r').fields;
    assert f["action_id"] == f'["action_id"] && f["amount_minor"] == f'["amount_minor"];
    assert f["recurring"] == f'["recurring"];
  }

  /** A scope key names one gateway and sandbox. */
  lemma ScopeKeyInjective(s: TrustedScope, s': TrustedScope)
    requires ScopeKey(s) == ScopeKey(s')
    ensures s == s'
  {
    var f, f' := ScopeJson(s).fields, ScopeJson(s').fields;
    assert f["gateway_id"] == f'["gateway_id"] && f["sandbox_id"] == f'["sandbox_id"];
  }

  /** Every scope has its own agent. */
  lemma AgentOfOneScope(s: TrustedScope, s': TrustedScope)
    ensures AgentId(s) == AgentId(s') <==> s == s'
  {
    hide ScopeJson;
    if AgentId(s) == AgentId(s') {
      ScopeKeyInjective(s, s');
    }
  }

  // ---- Controls ------------------------------------------------------------

  const AMOUNT := "controlspec.synthetic.amount_minor"
  const RECURRING := "controlspec.synthetic.recurring"
  const AMOUNT_PATH := "/context/" + AMOUNT
  const RECURRING_PATH := "/context/" + RECURRING

  function DemoRoute(kind: RouteKind): Route {
    Route(NAMESPACE, if kind == BlockRoute then "block" else "continue", kind, None, map[], false)
  }

  function Approval(): ApprovalRequirement {
    ApprovalRequirement("exact-human-approval", ApprovalFailure("controlspec.synthetic.approval_required"),
                        "controlspec.synthetic.operator",
                        map["controlspec.synthetic.target" := Name("POST /purchases")], 1, Some(120), true, [])
  }

  function MissingContext(): Failure {
    BlockFailure(DemoRoute(BlockRoute), "controlspec.synthetic.missing_context")
  }

  function MakeControl(name: string, predicates: seq<Predicate>, requiresApproval: bool, blocked: bool): Control {
    FinalizeControl(
      Control(NAMESPACE, name, "1.0.0", Published, None, None,
              ControlMatch({Agent}, {Commit}, {"controlspec.synthetic.purchase"}, {"controlspec.synthetic.cart"},
                           predicates),
              MissingContext(),
              ControlEffect(if blocked then Block else Allow, DemoRoute(if blocked then BlockRoute else Continue),
                            if requiresApproval then [NeedsApproval(Approval())] else [], [],
                            "controlspec.synthetic." + name),
              None))
  }

  function OneTime(): Predicate { Eq(RECURRING_PATH, JBool(false)) }

  function WithinLimit(): Control {
    MakeControl("within_limit", [OneTime(), Compare(AMOUNT_PATH, Lte, JInt(LIMIT))], false, false)
  }

  function AboveLimit(): Control {
    MakeControl("above_limit", [OneTime(), Compare(AMOUNT_PATH, Gt, JInt(LIMIT))], true, false)
  }

  function RecurringBlocked(): Control {
    MakeControl("recurring_blocked", [Eq(RECURRING_PATH, JBool(true))], false, true)
  }

  function SyntheticControls(): seq<Control> {
    [WithinLimit(), AboveLimit(), RecurringBlocked()]
  }

  function PolicyDigest(controls: seq<Control>): Digest { OfControls(controls) }

  function SnapshotOf(controls: seq<Control>, observedAt: int): Snapshot {
    FinalizeSnapshot(Snapshot(controls, observedAt, NonAuthoritative, {}, None))
  }

  function ContextOf(r: PurchaseRequest, scope: TrustedScope): map<string, Json> {
    map[AMOUNT := JInt(r.amountMinor), RECURRING := JBool(r.recurring),
        "controlspec.synthetic.request_digest" := DigestText(RequestDigest(r)),
        "controlspec.synthetic.scope_digest" := DigestText(ScopeKey(scope)),
        "controlspec.synthetic.method" := Name("POST"), "controlspec.synthetic.path" := Name("/purchases")]
  }

  function MakeIntent(r: PurchaseRequest, scope: TrustedScope, firstSeen: int): ActionIntent {
    var context := ContextOf(r, scope);
    FinalizeIntent(
      ActionIntent(NAMESPACE, r.actionId,
                   Actor(NAMESPACE, AgentId(scope), "1", Agent, None, [], map[]),
                   Action(Commit, "controlspec.synthetic.purchase", RequestJson(r)),
                   Resource(NAMESPACE, "demo-store", "1", "controlspec.synthetic.cart", None, map[]),
                   context, JNull, firstSeen, r.actionId, ContextDigest(context), None))
  }

  function EngineEvaluator(canon: Canon): Evaluator { Evaluator({}, ENGINE_TTL, canon) }

  /** The engine supplies approvals and their basis, never evidence or profiles. */
  function EngineFacts(basis: Option<DecisionRef>, approvals: seq<ApprovalFact>): EvaluationFacts {
    EvaluationFacts(basis, approvals, [], [])
  }

  // ---- Resolving the two paths ---------------------------------------------

  function ContextPath(name: string): seq<Step> { [Field("context"), Field(name)] }

  lemma EncodeTwoPlain(outer: string, inner: string)
    requires Plain(outer) && Plain(inner)
    ensures Encode([Field(outer), Field(inner)]) == "/" + (outer + ("/" + inner))
  {
    PlainTokens(outer);
    PlainTokens(inner);
    var path := [Field(outer), Field(inner)];
    assert path[1..] == [Field(inner)] && path[1..][1..] == [];
    assert Encode(path[1..]) == "/" + (inner + []) == "/" + inner;
    assert Encode(path) == "/" + (outer + Encode(path[1..]));
  }

  lemma ContextPathText(name: string)
    requires Plain(name)
    ensures Encode(ContextPath(name)) == "/context/" + name
  {
    hide Encode;
    EncodeTwoPlain("context", name);
    assert "/" + "context" + "/" == "/context/";
    Regrouped("/", "context", "/", name);
  }

  lemma Regrouped(a: string, b: string, c: string, d: string)
    ensures a + (b + (c + d)) == a + b + c + d
  {
  }

  lemma ContextPathLeads(i: ActionIntent, name: string)
    requires name in i.context
    ensures At(Document(i), ContextPath(name)) == Some(i.context[name])
  {
    var tail := ContextPath(name)[1..];
    assert tail == [Field(name)] && tail[1..] == [];
    assert Document(i).fields["context"] == JObj(i.context);
    assert At(JObj(i.context), tail) == Some(i.context[name]);
  }

  lemma PathsResolve(i: ActionIntent, name: string)
    requires Plain(name) && name in i.context
    ensures Resolve(Document(i), "/context/" + name) == Ok(Some(i.context[name]))
  {
    hide Encode, At, Document, Resolve;
    ContextPathText(name);
    ContextPathLeads(i, name);
    ResolveInvertsEncode(Document(i), ContextPath(name));
  }

  lemma NamesArePlain()
    ensures Plain(AMOUNT) && Plain(RECURRING) && AMOUNT != RECURRING
  {
    assert |AMOUNT| == 34 && |RECURRING| == 31;
  }

  lemma IntentContext(r: PurchaseRequest, scope: TrustedScope, firstSeen: int)
    ensures var i := MakeIntent(r, scope, firstSeen);
            && i.context == ContextOf(r, scope) && VerifiedIntent(i) && i.ns == NAMESPACE
            && i.intentId == r.actionId
            && i.actor == Actor(NAMESPACE, AgentId(scope), "1", Agent, None, [], map[])
            && i.action.actionType == Commit && i.action.domainAction == "controlspec.synthetic.purchase"
            && i.resource.resourceType == "controlspec.synthetic.cart"
    ensures RECURRING in ContextOf(r, scope) && ContextOf(r, scope)[RECURRING] == JBool(r.recurring)
    ensures AMOUNT in ContextOf(r, scope) && ContextOf(r, scope)[AMOUNT] == JInt(r.amountMinor)
  {
  }

  /** The context of a purchase is of one request in one scope, and its intent moreover of one time. */
  lemma IntentIsOne(r: PurchaseRequest, scope: TrustedScope, firstSeen: int, r': PurchaseRequest, scope': TrustedScope,
                    firstSeen': int)
    ensures MakeIntent(r, scope, firstSeen).contextDigest == MakeIntent(r', scope', firstSeen').contextDigest
            <==> r == r' && scope == scope'
    ensures MakeIntent(r, scope, firstSeen).intentDigest == MakeIntent(r', scope', firstSeen').intentDigest
            <==> r == r' && scope == scope' && firstSeen == firstSeen'
  {
    hide RequestJson, ScopeJson;
    var c, c' := ContextOf(r, scope), ContextOf(r', scope');
    if c == c' {
      assert c["controlspec.synthetic.request_digest"] == c'["controlspec.synthetic.request_digest"];
      assert c["controlspec.synthetic.scope_digest"] == c'["controlspec.synthetic.scope_digest"];
      RequestDigestInjective(r, r');
      ScopeKeyInjective(scope, scope');
    }
    var i, i' := MakeIntent(r, scope, firstSeen), MakeIntent(r', scope', firstSeen');
    if i.intentDigest == i'.intentDigest {
      assert i.(intentDigest := None) == i'.(intentDigest := None);
      assert i.context == c && i'.context == c';
    }
  }

  /** What the predicates see in the context of a purchase. */
  lemma PurchasePredicates(r: PurchaseRequest, scope: TrustedScope, firstSeen: int)
    ensures var document := Document(MakeIntent(r, scope, firstSeen));
            && (forall b :: EvaluatePredicate(Eq(RECURRING_PATH, JBool(b)), document) == Ok(Truth(r.recurring == b)))
            && (forall c, n :: EvaluatePredicate(Compare(AMOUNT_PATH, c, JInt(n)), document)
                               == Ok(Truth(Holds(c, r.amountMinor, n))))
  {
    hide Document, Resolve, MakeIntent, ContextOf;
    var i := MakeIntent(r, scope, firstSeen);
    IntentContext(r, scope, firstSeen);
    NamesArePlain();
    PathsResolve(i, AMOUNT);
    PathsResolve(i, RECURRING);
  }

  // ---- Which control applies -----------------------------------------------

  lemma MadeControl(name: string, predicates: seq<Predicate>, requiresApproval: bool, blocked: bool)
    ensures var c := MakeControl(name, predicates, requiresApproval, blocked);
            && VerifiedControl(c) && UsedVerifiers(c) == {} && IdentityOf(c) == (NAMESPACE, name, "1.0.0")
            && c.match_.predicates == predicates && c.onUnknown == MissingContext()
            && c.effect.verdict == (if blocked then Block else Allow)
            && c.effect.route == DemoRoute(if blocked then BlockRoute else Continue)
            && c.effect.conditions == []
            && c.effect.requirements == (if requiresApproval then [NeedsApproval(Approval())] else [])
  {
  }

  lemma MadeControlApplies(name: string, predicates: seq<Predicate>, requiresApproval: bool, blocked: bool,
                           r: PurchaseRequest, scope: TrustedScope, firstSeen: int, observedAt: int)
    ensures var c := MakeControl(name, predicates, requiresApproval, blocked);
            var i := MakeIntent(r, scope, firstSeen);
            Effective(c, observedAt) && CoreMatch(c, i)
  {
  }

  /** Control identities are distinct, digests are their own, no verifier is used. */
  lemma ControlsValid(observedAt: int)
    ensures SnapshotError(SnapshotOf(SyntheticControls(), observedAt)).None?
  {
    hide MakeControl, UsedVerifiers, SnapshotError, Supports;
    var s := SnapshotOf(SyntheticControls(), observedAt);
    SupportsIff(WithinLimit(), {});
    SupportsIff(AboveLimit(), {});
    SupportsIff(RecurringBlocked(), {});
    assert |"within_limit"| == 12 && |"above_limit"| == 11 && |"recurring_blocked"| == 17;
    MadeControl("within_limit", [OneTime(), Compare(AMOUNT_PATH, Lte, JInt(LIMIT))], false, false);
    MadeControl("above_limit", [OneTime(), Compare(AMOUNT_PATH, Gt, JInt(LIMIT))], true, false);
    MadeControl("recurring_blocked", [Eq(RECURRING_PATH, JBool(true))], false, true);
    SnapshotValidIff(s);
  }

  /** The one control that applies to a request, and how its predicates come out. */
  function ApplicableControl(r: PurchaseRequest): Control {
    if r.recurring then RecurringBlocked() else if r.amountMinor <= LIMIT then WithinLimit() else AboveLimit()
  }

  function ApplicableOutcome(r: PurchaseRequest): Applied {
    ApplyControl(ApplicableControl(r), if r.recurring then [Yes] else [Yes, Yes])
  }

  lemma TwoResults(p: Predicate, q: Predicate, document: Json, x: PredicateResult, y: PredicateResult)
    requires EvaluatePredicate(p, document) == Ok(x) && EvaluatePredicate(q, document) == Ok(y)
    ensures PredicateResults([p, q], document) == Ok([x, y])
    ensures PredicateResults([p], document) == Ok([x])
  {
    hide EvaluatePredicate;
    assert [p, q][1..] == [q] && [q][1..] == [] && [p][1..] == [];
    assert PredicateResults([], document) == Ok([]);
    assert [y] + [] == [y] && [x] + [] == [x] && [x] + [y] == [x, y];
    assert PredicateResults([q], document) == Ok([y]);
  }

  lemma MadeContribution(name: string, predicates: seq<Predicate>, requiresApproval: bool, blocked: bool,
                         r: PurchaseRequest, scope: TrustedScope, firstSeen: int, observedAt: int,
                         results: seq<PredicateResult>)
    requires PredicateResults(predicates, Document(MakeIntent(r, scope, firstSeen))) == Ok(results)
    ensures var c := MakeControl(name, predicates, requiresApproval, blocked);
            Contribution(c, MakeIntent(r, scope, firstSeen), observedAt)
            == Ok(if No in results then [] else [ApplyControl(c, results)])
  {
    hide MakeIntent, MakeControl, PredicateResults, Document, Effective, CoreMatch, ApplyControl;
    MadeControl(name, predicates, requiresApproval, blocked);
    MadeControlApplies(name, predicates, requiresApproval, blocked, r, scope, firstSeen, observedAt);
  }

  lemma SyntheticContributions(r: PurchaseRequest, scope: TrustedScope, firstSeen: int, observedAt: int)
    ensures var i := MakeIntent(r, scope, firstSeen);
            && Contribution(WithinLimit(), i, observedAt)
               == Ok(if !r.recurring && r.amountMinor <= LIMIT then [ApplicableOutcome(r)] else [])
            && Contribution(AboveLimit(), i, observedAt)
               == Ok(if !r.recurring && r.amountMinor > LIMIT then [ApplicableOutcome(r)] else [])
            && Contribution(RecurringBlocked(), i, observedAt)
               == Ok(if r.recurring then [ApplicableOutcome(r)] else [])
  {
    hide MakeIntent, MakeControl, Document, Contribution, PredicateResults, EvaluatePredicate, ApplyControl;
    var document := Document(MakeIntent(r, scope, firstSeen));
    PurchasePredicates(r, scope, firstSeen);
    var once, within, above, recurring :=
      OneTime(), Compare(AMOUNT_PATH, Lte, JInt(LIMIT)), Compare(AMOUNT_PATH, Gt, JInt(LIMIT)),
      Eq(RECURRING_PATH, JBool(true));
    var a, d := Truth(r.recurring == false), Truth(r.recurring);
    var b, c := Truth(r.amountMinor <= LIMIT), Truth(r.amountMinor > LIMIT);
    TwoResults(once, within, document, a, b);
    TwoResults(once, above, document, a, c);
    TwoResults(recurring, once, document, d, a);
    MadeContribution("within_limit", [once, within], false, false, r, scope, firstSeen, observedAt, [a, b]);
    MadeContribution("above_limit", [once, above], true, false, r, scope, firstSeen, observedAt, [a, c]);
    MadeContribution("recurring_blocked", [recurring], false, true, r, scope, firstSeen, observedAt, [d]);
  }

  lemma SelectThree(a: Control, b: Control, c: Control, i: ActionIntent, observedAt: int,
                    x: seq<Applied>, y: seq<Applied>, z: seq<Applied>)
    requires Contribution(a, i, observedAt) == Ok(x) && Contribution(b, i, observedAt) == Ok(y)
    requires Contribution(c, i, observedAt) == Ok(z)
    ensures SelectFrom([a, b, c], i, observedAt) == Ok(x + (y + z))
  {
    hide Contribution;
    assert [a, b, c][1..] == [b, c] && [b, c][1..] == [c] && [c][1..] == [];
    assert SelectFrom([], i, observedAt) == Ok([]) && z + [] == z;
    assert SelectFrom([c], i, observedAt) == Ok(z);
    assert SelectFrom([b, c], i, observedAt) == Ok(y + z);
  }

  /** Exactly one of the three controls applies to any purchase. */
  lemma SyntheticSelection(r: PurchaseRequest, scope: TrustedScope, firstSeen: int, observedAt: int, canon: Canon)
    ensures SelectControls(MakeIntent(r, scope, firstSeen), SnapshotOf(SyntheticControls(), observedAt), canon)
            == Ok([ApplicableOutcome(r)])
  {
    hide MakeIntent, MakeControl, Contribution, SnapshotError, ApplyControl, SelectFrom, ApplicableOutcome, SortBy;
    hide WithinLimit, AboveLimit, RecurringBlocked;
    var i := MakeIntent(r, scope, firstSeen);
    ControlsValid(observedAt);
    SyntheticContributions(r, scope, firstSeen, observedAt);
    var o := ApplicableOutcome(r);
    var x, y, z := if !r.recurring && r.amountMinor <= LIMIT then [o] else [],
                   if !r.recurring && r.amountMinor > LIMIT then [o] else [],
                   if r.recurring then [o] else [];
    SelectThree(WithinLimit(), AboveLimit(), RecurringBlocked(), i, observedAt, x, y, z);
    assert x + (y + z) == [o];
    SortOne(o, OutcomeKey(canon));
  }

  lemma SortOne<T>(x: T, key: T -> string)
    ensures SortBy([x], key) == [x]
  {
    assert [x][1..] == [];
    assert SortBy([x][1..], key) == [];
  }

  // ---- What is decided -----------------------------------------------------

  /** The approvals on record that count for a large purchase. */
  function Countable(i: ActionIntent, observedAt: int, controls: seq<Control>, facts: EvaluationFacts)
    : seq<ApprovalFact>
  {
    Matching(facts.approvals, Approval(), Situation(i, SnapshotOf(controls, observedAt), facts, {}))
  }

  predicate SomeDependent(i: ActionIntent, observedAt: int, controls: seq<Control>, facts: EvaluationFacts) {
    AnyDependent(Countable(i, observedAt, controls, facts), Approval(), i)
  }

  function ExpectedVerdict(r: PurchaseRequest, i: ActionIntent, observedAt: int, facts: EvaluationFacts): Verdict {
    if r.recurring then Block
    else if r.amountMinor <= LIMIT then Allow
    else if SomeDependent(i, observedAt, SyntheticControls(), facts) then Block
    else if Countable(i, observedAt, SyntheticControls(), facts) != [] then Allow
    else RequireApproval
  }

  /** What the one applicable outcome assesses to. */
  function ExpectedAssessment(r: PurchaseRequest, s: Situation): Assessment {
    if !r.recurring && r.amountMinor > LIMIT then AssessApproval(Approval(), ApplicableOutcome(r).ref, s) else NOTHING
  }

  lemma ApplicableEffect(r: PurchaseRequest)
    ensures var o := ApplicableOutcome(r);
            && o.outcome.Normal?
            && o.outcome.effect.verdict == (if r.recurring then Block else Allow)
            && o.outcome.effect.route == DemoRoute(if r.recurring then BlockRoute else Continue)
            && o.outcome.effect.conditions == []
            && o.outcome.effect.requirements
               == (if !r.recurring && r.amountMinor > LIMIT then [NeedsApproval(Approval())] else [])
  {
    hide MakeControl;
    MadeControl("within_limit", [OneTime(), Compare(AMOUNT_PATH, Lte, JInt(LIMIT))], false, false);
    MadeControl("above_limit", [OneTime(), Compare(AMOUNT_PATH, Gt, JInt(LIMIT))], true, false);
    MadeControl("recurring_blocked", [Eq(RECURRING_PATH, JBool(true))], false, true);
  }

  lemma SyntheticAssessment(r: PurchaseRequest, s: Situation)
    requires FactsVerified(s.facts)
    ensures Assess([ApplicableOutcome(r)], s) == Ok(ExpectedAssessment(r, s))
  {
    hide ApplicableOutcome, AssessApproval, Join, FactsVerified;
    ApplicableEffect(r);
    var o := ApplicableOutcome(r);
    var needs := [NeedsApproval(Approval())];
    assert [o][1..] == [] && needs[1..] == [];
    assert AssessOutcomes([], s) == Ok(NOTHING);
    assert AssessRequirements([], o.ref, s) == Ok(NOTHING);
    assert AssessConditions([], o.ref, s) == NOTHING;
    var approval := AssessApproval(Approval(), o.ref, s);
    JoinUnit(NOTHING);
    JoinUnit(approval);
    assert AssessRequirements(needs, o.ref, s) == Ok(approval);
  }

  lemma UniqueOne<T>(x: T, key: T -> string)
    ensures Unique([x], key) == [x]
  {
    assert [x][1..] == [];
    assert Unique([x][1..], key) == [];
  }

  /** The values of a single outcome: its effect, and an approval failure when the count fell short. */
  lemma ValuesOfOne(o: Applied, a: Assessment)
    requires o.outcome.Normal? && a.profileOutcomes == []
    requires a.failures == [] || (|a.failures| == 1 && a.failures[0].failure.ApprovalFailure?)
    ensures var values := Values([o], a);
            && values == [o.outcome] + (if a.failures == [] then [] else [Failed(a.failures[0].failure)])
            && BaseRoutes(values) == [o.outcome.effect.route]
            && RoutesOf(values, Block) == (if o.outcome.effect.verdict == Block then [o.outcome.effect.route] else [])
            && (o.outcome.effect.verdict != RouteTo ==> RoutesOf(values, RouteTo) == [])
  {
    var tail: seq<Effect> := if a.failures == [] then [] else [Failed(a.failures[0].failure)];
    assert [o][1..] == [];
    assert Outcomes([o]) == [o.outcome];
    if a.failures != [] {
      assert a.failures[1..] == [];
    }
    assert FailureEffects(a.failures) == tail;
    var values := Values([o], a);
    assert values == [o.outcome] + tail;
    assert values[1..] == tail;
    NoRoutesInTail(tail);
  }

  lemma NoRoutesInTail(tail: seq<Effect>)
    requires tail == [] || (|tail| == 1 && tail[0].Failed? && tail[0].failure.ApprovalFailure?)
    ensures BaseRoutes(tail) == [] && RoutesOf(tail, Block) == [] && RoutesOf(tail, RouteTo) == []
  {
    assert RoutesOf([], Block) == [] && RoutesOf([], RouteTo) == [] && BaseRoutes([]) == [];
    if tail != [] {
      assert tail[1..] == [] && EffectRoute(tail[0]).None?;
    }
  }

  /** Verdict and route of a single outcome that allows or blocks. */
  lemma ComposeOne(o: Applied, a: Assessment, canon: Canon)
    requires o.outcome.Normal? && a.profileOutcomes == []
    requires o.outcome.effect.verdict == Allow || o.outcome.effect.verdict == Block
    requires a.failures == [] || (|a.failures| == 1 && a.failures[0].failure.ApprovalFailure?)
    requires o.outcome.effect.verdict == Block ==> !a.independenceFailed
    ensures var c := Compose([o], a, canon);
            && c.verdict == (if o.outcome.effect.verdict == Block || a.independenceFailed then Block
                             else if a.failures != [] then RequireApproval else Allow)
            && c.route == (if a.independenceFailed then SafetyRoute(false) else o.outcome.effect.route)
            && c.approvals == Unique(a.approvals, canon.approval)
            && c.applied == [o.ref]
  {
    hide Values, RoutesOf, BaseRoutes, HasVerdict, Unique;
    var values := Values([o], a);
    ValuesOfOne(o, a);
    UniqueOne(o.outcome.effect.route, canon.route);
    UniqueOne(SafetyRoute(false), canon.route);
    UniqueEmptiness(RoutesOf(values, RouteTo), canon.route);
    assert BlockRoutes(values, a) == (if o.outcome.effect.verdict == Block then [o.outcome.effect.route] else [])
                                     + (if a.independenceFailed then [SafetyRoute(false)] else []);
    assert [o.outcome.effect.route] + [] == [o.outcome.effect.route];
    assert [] + [SafetyRoute(false)] == [SafetyRoute(false)];
    assert [o][1..] == [] && Refs([]) == [] && Refs([o]) == [o.ref];
    UniqueOne(o.ref, canon.control);
    VerdictsOfOne(o.outcome, if a.failures == [] then [] else [Failed(a.failures[0].failure)]);
  }

  lemma VerdictsOfOne(e: Effect, tail: seq<Effect>)
    requires e.Normal? && (e.effect.verdict == Allow || e.effect.verdict == Block)
    requires tail == [] || (|tail| == 1 && tail[0].Failed? && tail[0].failure.ApprovalFailure?)
    ensures HasVerdict([e] + tail, RequireApproval) <==> tail != []
    ensures !HasVerdict([e] + tail, AllowWithConditions)
  {
    var values := [e] + tail;
    if tail != [] {
      assert EffectVerdictOf(values[1]) == RequireApproval;
    }
  }

  /** How many approvals count, and whether one of them is not independent, decide a large purchase. */
  lemma ApprovalAssessment(ref: ControlRef, s: Situation)
    ensures var a := AssessApproval(Approval(), ref, s);
            var matching := Matching(s.facts.approvals, Approval(), s);
            && a.approvals == [Approval()] && a.profileOutcomes == []
            && a.independenceFailed == AnyDependent(matching, Approval(), s.intent)
            && (a.failures == [] || (|a.failures| == 1 && a.failures[0].failure.ApprovalFailure?))
            && (!a.independenceFailed ==> (a.failures == [] <==> matching != []))
  {
    hide Matching, Independent, AnyDependent;
    var matching := Matching(s.facts.approvals, Approval(), s);
    if !AnyDependent(matching, Approval(), s.intent) {
      AllIndependent(matching, Approval(), s.intent);
    }
  }

  /** The verdict of the example policy on any purchase, in closed form. */
  lemma SyntheticComposition(r: PurchaseRequest, s: Situation, canon: Canon)
    ensures var c := Compose([ApplicableOutcome(r)], ExpectedAssessment(r, s), canon);
            var matching := Matching(s.facts.approvals, Approval(), s);
            && c.verdict == (if r.recurring then Block
                             else if r.amountMinor <= LIMIT then Allow
                             else if AnyDependent(matching, Approval(), s.intent) then Block
                             else if matching != [] then Allow
                             else RequireApproval)
            && (c.verdict == Block ==> c.route.kind == BlockRoute)
            && (c.verdict != Block ==> c.route.kind == Continue)
            && c.approvals == (if !r.recurring && r.amountMinor > LIMIT then [Approval()] else [])
            && c.applied != []
  {
    hide ApplicableOutcome, AssessApproval, Compose, Matching, AnyDependent;
    ApplicableEffect(r);
    var o := ApplicableOutcome(r);
    ApprovalAssessment(o.ref, s);
    ComposeOne(o, ExpectedAssessment(r, s), canon);
    UniqueOne(Approval(), canon.approval);
  }

  /** Any purchase by any scope, at any time and with any genuine approvals, gets a decision, and this is it. */
  lemma SyntheticDecision(r: PurchaseRequest, scope: TrustedScope, firstSeen: int, observedAt: int,
                          basis: Option<DecisionRef>, approvals: seq<ApprovalFact>, canon: Canon)
    requires forall k :: 0 <= k < |approvals| ==> VerifiedApproval(approvals[k])
    ensures var i := MakeIntent(r, scope, firstSeen);
            var facts := EngineFacts(basis, approvals);
            var d := Evaluate(EngineEvaluator(canon), i, SnapshotOf(SyntheticControls(), observedAt), facts);
            && d.Ok?
            && d.value.verdict == ExpectedVerdict(r, i, observedAt, facts)
            && (d.value.verdict != Block ==> d.value.route.kind == Continue)
            && d.value.approvalRequirements == (if !r.recurring && r.amountMinor > LIMIT then [Approval()] else [])
            && forall x :: x in d.value.approvalRequirements
                 ==> && x.role == "controlspec.synthetic.operator" && x.minimumCount == 1 && x.separateFromActor
                     && x.validitySeconds == Some(120)
  {
    hide MakeIntent, SyntheticControls, SelectControls, Assess, Compose, ApplicableOutcome, ExpectedAssessment;
    hide Matching, AnyDependent, FactsVerified, AssessApproval, Evaluate, BuildDecision;
    var i, s := MakeIntent(r, scope, firstSeen), SnapshotOf(SyntheticControls(), observedAt);
    var facts := EngineFacts(basis, approvals);
    var situation := Situation(i, s, facts, {});
    IntentContext(r, scope, firstSeen);
    SyntheticSelection(r, scope, firstSeen, observedAt, canon);
    EngineFactsVerified(basis, approvals);
    SyntheticAssessment(r, situation);
    SyntheticComposition(r, situation, canon);
    var os, a := [ApplicableOutcome(r)], ExpectedAssessment(r, situation);
    EvaluateSteps(EngineEvaluator(canon), i, s, facts, os, a);
    BuiltFields(EngineEvaluator(canon), i, s, facts, Compose(os, a, canon));
  }

  lemma EngineFactsVerified(basis: Option<DecisionRef>, approvals: seq<ApprovalFact>)
    requires forall k :: 0 <= k < |approvals| ==> VerifiedApproval(approvals[k])
    ensures FactsVerified(EngineFacts(basis, approvals))
  {
  }
}
