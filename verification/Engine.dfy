/** The purchase engine: evaluation, operator approval, one-use reservation and reconciliation over one ledger.

    Each operation is one transaction. The step functions give its whole effect on the log; the class performs it
    on a ledger object, statement by statement, and is proved to have exactly that effect. */
module Engine {
  import opened Wrappers
  import opened Contracts
  import opened Selection
  import opened Evaluator
  import opened Ledgers
  import opened Policy
  import opened Tickets

  const SECOND := 1_000_000
  const ACTION_WINDOW := 300 * SECOND
  const TICKET_WINDOW := 30 * SECOND
  const APPROVAL_WINDOW := 120 * SECOND

  // ---- Records -------------------------------------------------------------

  datatype Status = Pending | Approved | Reserved

  datatype StateRecord = StateRecord(request: PurchaseRequest, requestDigest: Digest, scope: TrustedScope,
                                     firstSeen: int, intent: ActionIntent, policyDigest: Digest, status: Status,
                                     approvals: seq<ApprovalFact>, basis: Option<DecisionRef>,
                                     decision: Option<Decision>, reservation: Option<TicketPayload>)

  datatype Denial =
    | ActionChanged | PolicyChanged | ActionExpired
    | OperatorAuthenticationFailed | UnknownPendingAction | ActionNotPending | PendingDecisionExpired
    | ApprovalNotRequired | ApprovalRejected
    | ActionAlreadyReserved | ApprovalIsRequired | PolicyDenied

  datatype Payload =
    | StatePayload(record: StateRecord)
    | DenialPayload(reason: Denial, at: int)
    | ReconciliationPayload(observedAt: int, verified: bool, receipt: Option<ReceiptClaim>)

  type Log = seq<Event<Payload>>

  const STATE := "state"
  const DENIED := "denied"
  const RECONCILIATION := "reconciliation"

  /** What the host fixes for good. The controls are not part of it: an engine may be restarted with other ones. */
  datatype Config = Config(ticketSecret: string, operatorSecret: string, operatorId: Text, canon: Canon)

  /** Denials are recorded; any other failure rolls the transaction back. */
  datatype Outcome<T> = Done(value: T) | Denied(reason: Denial) | Crashed

  function LatestState(log: Log, scope: TrustedScope, actionId: string): Option<StateRecord> {
    var newest: Option<Payload> := Latest(log, ScopeKey(scope), actionId, STATE);
    match newest
    case Some(StatePayload(record)) => Some(record)
    case _ => None
  }

  function Record(log: Log, scope: TrustedScope, actionId: string, record: StateRecord): Log {
    Append(log, ScopeKey(scope), actionId, STATE, StatePayload(record))
  }

  function RecordDenial(log: Log, scope: TrustedScope, actionId: string, reason: Denial, at: int): Log {
    Append(log, ScopeKey(scope), actionId, DENIED, DenialPayload(reason, at))
  }

  function Min(a: int, b: int): int { if a <= b then a else b }

  // ---- Evaluation inside a transaction -------------------------------------

  function NewRecord(controls: seq<Control>, r: PurchaseRequest, scope: TrustedScope, at: int): StateRecord {
    StateRecord(r, RequestDigest(r), scope, at, MakeIntent(r, scope, at), PolicyDigest(controls), Pending, [], None,
                None, None)
  }

  /** The stored record of an action, or a new one. */
  function CurrentRecord(controls: seq<Control>, log: Log, r: PurchaseRequest, scope: TrustedScope, at: int)
    : StateRecord
  {
    match LatestState(log, scope, r.actionId)
    case Some(record) => record
    case None => NewRecord(controls, r, scope, at)
  }

  /** Why an action cannot be evaluated now. */
  function StaleReason(controls: seq<Control>, record: StateRecord, r: PurchaseRequest, at: int): Option<Denial> {
    if record.requestDigest != RequestDigest(r) then Some(ActionChanged)
    else if record.policyDigest != PolicyDigest(controls) then Some(PolicyChanged)
    else if at < record.firstSeen || at >= record.firstSeen + ACTION_WINDOW then Some(ActionExpired)
    else None
  }

  function DecisionFor(cfg: Config, controls: seq<Control>, record: StateRecord, at: int)
    : Result<Decision, EvaluationError>
  {
    Evaluate(EngineEvaluator(cfg.canon), record.intent, SnapshotOf(controls, at),
             EngineFacts(record.basis, record.approvals))
  }

  /** A successful evaluation leaves the record with its decision as the newest state of the action. */
  datatype Evaluated = Evaluated(log: Log, record: StateRecord, decision: Decision)

  function EvaluateRecord(cfg: Config, controls: seq<Control>, log: Log, r: PurchaseRequest, scope: TrustedScope,
                          at: int): Outcome<Evaluated>
  {
    var record := CurrentRecord(controls, log, r, scope, at);
    match StaleReason(controls, record, r, at)
    case Some(reason) => Denied(reason)
    case None =>
      match DecisionFor(cfg, controls, record, at)
      case Err(_) => Crashed
      case Ok(d) =>
        var decided := record.(decision := Some(d));
        Done(Evaluated(Record(log, scope, r.actionId, decided), decided, d))
  }

  predicate Allowed(d: Decision) {
    Permissive(d.verdict) && d.route.kind == Continue
  }

  // ---- The steps -----------------------------------------------------------

  /** The log after a step and what the caller gets. */
  datatype Effect<T> = Effect(log: Log, outcome: Outcome<T>)

  function EvaluateStep(cfg: Config, controls: seq<Control>, log: Log, r: PurchaseRequest, scope: TrustedScope, at: int)
    : Effect<Decision>
  {
    match EvaluateRecord(cfg, controls, log, r, scope, at)
    case Done(e) => Effect(e.log, Done(e.decision))
    case Denied(reason) => Effect(RecordDenial(log, scope, r.actionId, reason, at), Denied(reason))
    case Crashed => Effect(log, Crashed)
  }

  function OperatorActor(cfg: Config): Actor {
    Actor(NAMESPACE, cfg.operatorId, "1", Human, None, [], map[])
  }

  function OperatorAuthority(cfg: Config): ObjectRef {
    ObjectRef(NAMESPACE, "controlspec.synthetic.operator_authority", cfg.operatorId, Some("1"),
              Some(OfJson(JObj(map["operator" := JStr(cfg.operatorId), "synthetic_only" := JBool(true)]))))
  }

  function OperatorFact(cfg: Config, basis: Decision, r: ApprovalRequirement, at: int, token: nat): ApprovalFact
    requires basis.digest.Some?
  {
    FinalizeApproval(
      ApprovalFact(Random(token), basis.intentRef, DecisionRefOf(basis), r.requirementId, ContextDigest(r.scope),
                   OperatorActor(cfg), OperatorAuthority(cfg), [r.role], map[], true, true, at,
                   Min(basis.expiresAt, at + APPROVAL_WINDOW), None))
  }

  /** One fact for each approval requirement of the basis, each with its own random identifier. */
  function OperatorFacts(cfg: Config, basis: Decision, rs: seq<ApprovalRequirement>, at: int, token: nat)
    : seq<ApprovalFact>
    requires basis.digest.Some?
  {
    if rs == [] then []
    else [OperatorFact(cfg, basis, rs[0], at, token)] + OperatorFacts(cfg, basis, rs[1..], at, token + 1)
  }

  /** The decision an operator may approve now, or why there is none. A state without a decision, or with one that has
      no digest, crashes the transaction. */
  function ApprovalBasis(cfg: Config, controls: seq<Control>, stored: Option<StateRecord>, token: string, at: int)
    : (basis: Outcome<Decision>)
    ensures basis.Done? ==> stored.Some? && stored.value.decision == Some(basis.value) && basis.value.digest.Some?
  {
    if token != cfg.operatorSecret then Denied(OperatorAuthenticationFailed)
    else if stored.None? then Denied(UnknownPendingAction)
    else if stored.value.status != Pending || stored.value.approvals != [] then Denied(ActionNotPending)
    else
      match stored.value.decision
      case None => Crashed
      case Some(d) =>
        if at >= d.expiresAt then Denied(PendingDecisionExpired)
        else if d.verdict != RequireApproval then Denied(ApprovalNotRequired)
        else if stored.value.policyDigest != PolicyDigest(controls) then Denied(PolicyChanged)
        else if d.digest.None? then Crashed
        else Done(d)
  }

  function ApprovedRecord(cfg: Config, record: StateRecord, at: int, draw: nat): StateRecord
    requires record.decision.Some? && record.decision.value.digest.Some?
  {
    var basis := record.decision.value;
    record.(approvals := OperatorFacts(cfg, basis, basis.approvalRequirements, at, draw),
            basis := Some(DecisionRefOf(basis)), status := Approved)
  }

  /** `draw` is the first of the random identifiers the step draws. A state whose actor is not the scope's agent
      crashes the transaction. */
  function ApproveStep(cfg: Config, controls: seq<Control>, log: Log, actionId: string, scope: TrustedScope,
                       token: string, at: int, draw: nat): Effect<Decision>
  {
    var stored := LatestState(log, scope, actionId);
    match ApprovalBasis(cfg, controls, stored, token, at)
    case Crashed => Effect(log, Crashed)
    case Denied(reason) => Effect(RecordDenial(log, scope, actionId, reason, at), Denied(reason))
    case Done(_) =>
      var approved := ApprovedRecord(cfg, stored.value, at, draw);
      var recorded := Record(log, scope, actionId, approved);
      match EvaluateRecord(cfg, controls, recorded, approved.request, scope, at)
      case Crashed => Effect(log, Crashed)
      case Denied(reason) => Effect(RecordDenial(recorded, scope, actionId, reason, at), Denied(reason))
      case Done(e) =>
        if approved.intent.actor.actorId != AgentId(scope) then Effect(log, Crashed)
        else if !Allowed(e.decision) then
          Effect(RecordDenial(e.log, scope, actionId, ApprovalRejected, at), Denied(ApprovalRejected))
        else Effect(e.log, Done(e.decision))
  }

  function EarliestEnd(limit: int, approvals: seq<ApprovalFact>): int
    decreases |approvals|
  {
    if approvals == [] then limit else EarliestEnd(Min(limit, approvals[0].validUntil), approvals[1..])
  }

  function TicketEnd(record: StateRecord, d: Decision, at: int): int {
    EarliestEnd(Min(Min(d.expiresAt, at + TICKET_WINDOW), record.firstSeen + ACTION_WINDOW), record.approvals)
  }

  function TicketFor(controls: seq<Control>, record: StateRecord, d: Decision, r: PurchaseRequest,
                     scope: TrustedScope, at: int, nonce: Text): TicketPayload
    requires d.digest.Some?
  {
    TicketPayload(PURPOSE, scope, r.actionId, record.requestDigest, PolicyDigest(controls), d.digest.value,
                  METHOD, TARGET_PATH, at, TicketEnd(record, d, at), nonce)
  }

  function AuthorizeRefusal(e: Evaluated): Option<Denial> {
    if e.record.status == Reserved then Some(ActionAlreadyReserved)
    else if !Allowed(e.decision) then
      Some(if e.decision.verdict == RequireApproval then ApprovalIsRequired else PolicyDenied)
    else None
  }

  /** The record a ticket's issue leaves. */
  function ReservedRecord(record: StateRecord, payload: TicketPayload): StateRecord {
    record.(status := Reserved, reservation := Some(payload))
  }

  function AuthorizeStep(cfg: Config, controls: seq<Control>, log: Log, r: PurchaseRequest, scope: TrustedScope,
                         at: int, nonce: Text): Effect<TicketText>
  {
    match EvaluateRecord(cfg, controls, log, r, scope, at)
    case Crashed => Effect(log, Crashed)
    case Denied(reason) => Effect(RecordDenial(log, scope, r.actionId, reason, at), Denied(reason))
    case Done(e) =>
      match AuthorizeRefusal(e)
      case Some(reason) => Effect(RecordDenial(e.log, scope, r.actionId, reason, at), Denied(reason))
      case None =>
        if e.decision.digest.None? then Effect(log, Crashed)
        else
          var payload := TicketFor(controls, e.record, e.decision, r, scope, at, nonce);
          Effect(Record(e.log, scope, r.actionId, ReservedRecord(e.record, payload)),
                 Done(SignTicket(payload, cfg.ticketSecret)))
  }

  /** Only evidence the target signed for the reserved nonce, this request and this scope completes a reservation. */
  predicate Reconciles(cfg: Config, stored: Option<StateRecord>, r: PurchaseRequest, scope: TrustedScope,
                       receipt: Option<ReceiptClaim>)
  {
    && stored.Some? && stored.value.status == Reserved && stored.value.reservation.Some? && receipt.Some?
    && GenuineEvidence(receipt.value, cfg.ticketSecret)
    && receipt.value.evidence.requestDigest == RequestDigest(r)
    && receipt.value.evidence.nonce == stored.value.reservation.value.nonce
    && receipt.value.evidence.scope == scope
    && receipt.value.evidence.status == "committed"
  }

  function ReconcileStep(cfg: Config, log: Log, r: PurchaseRequest, scope: TrustedScope, receipt: Option<ReceiptClaim>,
                         at: int): (Log, bool)
  {
    var valid := Reconciles(cfg, LatestState(log, scope, r.actionId), r, scope, receipt);
    (Append(log, ScopeKey(scope), r.actionId, RECONCILIATION, ReconciliationPayload(at, valid, receipt)), valid)
  }

  // ---- The engine object ---------------------------------------------------

  class DemoEngine {
    const cfg: Config
    const controls: seq<Control>
    const ledger: Ledger<Payload>

    /** An engine on a ledger that may hold what earlier engines recorded, under these controls or others. */
    constructor (cfg: Config, controls: seq<Control>, ledger: Ledger<Payload>)
      ensures this.cfg == cfg && this.controls == controls && this.ledger == ledger
    {
      this.cfg, this.controls, this.ledger := cfg, controls, ledger;
    }

    method NewestState(scope: TrustedScope, actionId: string) returns (record: Option<StateRecord>)
      ensures record == LatestState(ledger.events, scope, actionId)
    {
      var found := ledger.Find(ScopeKey(scope), actionId, STATE);
      match found
      case Some(StatePayload(r)) => record := Some(r);
      case _ => record := None;
    }

    /** The shared evaluation: it appends the decided state or leaves the ledger alone. */
    method EvaluateIn(r: PurchaseRequest, scope: TrustedScope, at: int) returns (o: Outcome<Evaluated>)
      modifies ledger
      ensures o == EvaluateRecord(cfg, controls, old(ledger.events), r, scope, at)
      ensures ledger.events == if o.Done? then o.value.log else old(ledger.events)
    {
      hide DecisionFor, NewRecord;
      var digest := RequestDigest(r);
      var stored := NewestState(scope, r.actionId);
      var state := if stored.Some? then stored.value else NewRecord(controls, r, scope, at);
      if state.requestDigest != digest {
        return Denied(ActionChanged);
      }
      if state.policyDigest != PolicyDigest(controls) {
        return Denied(PolicyChanged);
      }
      if at < state.firstSeen || at >= state.firstSeen + ACTION_WINDOW {
        return Denied(ActionExpired);
      }
      var result := DecisionFor(cfg, controls, state, at);
      if result.Err? {
        return Crashed;
      }
      state := state.(decision := Some(result.value));
      var _ := ledger.Add(ScopeKey(scope), r.actionId, STATE, StatePayload(state));
      o := Done(Evaluated(ledger.events, state, result.value));
    }

    method Evaluate(r: PurchaseRequest, scope: TrustedScope, at: int) returns (o: Outcome<Decision>)
      modifies ledger
      ensures Effect(ledger.events, o) == EvaluateStep(cfg, controls, old(ledger.events), r, scope, at)
    {
      hide EvaluateRecord;
      var e := EvaluateIn(r, scope, at);
      match e
      case Done(value) =>
        o := Done(value.decision);
      case Denied(reason) =>
        o := Deny(r.actionId, scope, reason, at);
      case Crashed =>
        o := Crashed;
    }

    /** One finalized fact for each approval requirement of the basis. */
    method MakeFacts(basis: Decision, at: int, draw: nat) returns (facts: seq<ApprovalFact>)
      requires basis.digest.Some?
      ensures facts == OperatorFacts(cfg, basis, basis.approvalRequirements, at, draw)
    {
      hide OperatorFacts, OperatorFact;
      facts := [];
      var rs := basis.approvalRequirements;
      assert rs[0..] == rs;
      for k := 0 to |rs|
        invariant facts + OperatorFacts(cfg, basis, rs[k..], at, draw + k) == OperatorFacts(cfg, basis, rs, at, draw)
      {
        FactsUnfold(cfg, basis, rs[k..], at, draw + k);
        assert rs[k..][1..] == rs[k + 1..];
        facts := facts + [OperatorFact(cfg, basis, rs[k], at, draw + k)];
      }
      FactsUnfold(cfg, basis, rs[|rs|..], at, draw + |rs|);
    }

    method Approve(actionId: string, scope: TrustedScope, token: string, at: int, draw: nat)
      returns (o: Outcome<Decision>)
      modifies ledger
      ensures Effect(ledger.events, o)
              == ApproveStep(cfg, controls, old(ledger.events), actionId, scope, token, at, draw)
    {
      hide EvaluateRecord, OperatorFacts, AgentId, Allowed;
      var saved := ledger.events;
      if token != cfg.operatorSecret {
        o := Deny(actionId, scope, OperatorAuthenticationFailed, at);
        return;
      }
      var stored := NewestState(scope, actionId);
      if stored.None? {
        o := Deny(actionId, scope, UnknownPendingAction, at);
        return;
      }
      var state := stored.value;
      if state.status != Pending || state.approvals != [] {
        o := Deny(actionId, scope, ActionNotPending, at);
        return;
      }
      if state.decision.None? {
        return Crashed;
      }
      var basis := state.decision.value;
      if at >= basis.expiresAt {
        o := Deny(actionId, scope, PendingDecisionExpired, at);
        return;
      }
      if basis.verdict != RequireApproval {
        o := Deny(actionId, scope, ApprovalNotRequired, at);
        return;
      }
      if state.policyDigest != PolicyDigest(controls) {
        o := Deny(actionId, scope, PolicyChanged, at);
        return;
      }
      if basis.digest.None? {
        return Crashed;
      }
      var facts := MakeFacts(basis, at, draw);
      state := state.(approvals := facts, basis := Some(DecisionRefOf(basis)), status := Approved);
      assert state == ApprovedRecord(cfg, stored.value, at, draw);
      var _ := ledger.Add(ScopeKey(scope), actionId, STATE, StatePayload(state));
      var e := EvaluateIn(state.request, scope, at);
      if e.Crashed? {
        ledger.RollBack(saved);
        return Crashed;
      }
      if e.Denied? {
        o := Deny(actionId, scope, e.reason, at);
        return;
      }
      if state.intent.actor.actorId != AgentId(scope) {
        ledger.RollBack(saved);
        return Crashed;
      }
      if !Allowed(e.value.decision) {
        o := Deny(actionId, scope, ApprovalRejected, at);
        return;
      }
      o := Done(e.value.decision);
    }

    /** Record a denial and return it. */
    method Deny(actionId: string, scope: TrustedScope, reason: Denial, at: int) returns (o: Outcome<Decision>)
      modifies ledger
      ensures o == Denied(reason)
      ensures ledger.events == RecordDenial(old(ledger.events), scope, actionId, reason, at)
    {
      var _ := ledger.Add(ScopeKey(scope), actionId, DENIED, DenialPayload(reason, at));
      o := Denied(reason);
    }

    method Authorize(r: PurchaseRequest, scope: TrustedScope, at: int, nonce: Text) returns (o: Outcome<TicketText>)
      modifies ledger
      ensures Effect(ledger.events, o) == AuthorizeStep(cfg, controls, old(ledger.events), r, scope, at, nonce)
    {
      hide EvaluateRecord, TicketEnd;
      var saved := ledger.events;
      var e := EvaluateIn(r, scope, at);
      if e.Crashed? {
        return Crashed;
      }
      if e.Denied? {
        var _ := ledger.Add(ScopeKey(scope), r.actionId, DENIED, DenialPayload(e.reason, at));
        return Denied(e.reason);
      }
      var state, decision := e.value.record, e.value.decision;
      if state.status == Reserved {
        var _ := ledger.Add(ScopeKey(scope), r.actionId, DENIED, DenialPayload(ActionAlreadyReserved, at));
        return Denied(ActionAlreadyReserved);
      }
      if !Allowed(decision) {
        var reason := if decision.verdict == RequireApproval then ApprovalIsRequired else PolicyDenied;
        var _ := ledger.Add(ScopeKey(scope), r.actionId, DENIED, DenialPayload(reason, at));
        return Denied(reason);
      }
      if decision.digest.None? {
        ledger.RollBack(saved);
        return Crashed;
      }
      var payload := TicketFor(controls, state, decision, r, scope, at, nonce);
      state := state.(status := Reserved, reservation := Some(payload));
      var _ := ledger.Add(ScopeKey(scope), r.actionId, STATE, StatePayload(state));
      o := Done(SignTicket(payload, cfg.ticketSecret));
    }

    method Reconcile(r: PurchaseRequest, scope: TrustedScope, receipt: Option<ReceiptClaim>, at: int)
      returns (valid: bool)
      modifies ledger
      ensures (ledger.events, valid) == ReconcileStep(cfg, old(ledger.events), r, scope, receipt, at)
    {
      hide Reconciles;
      var state := NewestState(scope, r.actionId);
      valid := Reconciles(cfg, state, r, scope, receipt);
      var _ := ledger.Add(ScopeKey(scope), r.actionId, RECONCILIATION, ReconciliationPayload(at, valid, receipt));
    }
  }

  lemma FactsUnfold(cfg: Config, basis: Decision, rs: seq<ApprovalRequirement>, at: int, draw: nat)
    requires basis.digest.Some?
    ensures OperatorFacts(cfg, basis, rs, at, draw)
            == if rs == [] then []
               else [OperatorFact(cfg, basis, rs[0], at, draw)] + OperatorFacts(cfg, basis, rs[1..], at, draw + 1)
  {
  }
}
