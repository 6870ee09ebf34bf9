/** Exactly when each step of the protocol succeeds. */
module Progress {
  import opened Wrappers
  import opened Contracts
  import opened Ledgers
  import opened Policy
  import opened Tickets
  import opened Engine
  import opened Target
  import opened Protocol
  import opened Safety
  import opened Entitlement

  // ---- Authorization, exactly ----------------------------------------------

  /** The record an action has, or would get now, may be evaluated for this request now: same request, same controls,
      and the clock in the action's window. */
  predicate Evaluable(controls: seq<Control>, record: StateRecord, r: PurchaseRequest, at: int) {
    && record.request == r && record.policyDigest == PolicyDigest(controls)
    && record.firstSeen <= at < record.firstSeen + ACTION_WINDOW
  }

  /** Under any controls, what is not evaluable is denied and what is denied is not evaluable. */
  lemma DeniedIff(cfg: Config, controls: seq<Control>, log: Log, r: PurchaseRequest, scope: TrustedScope, at: int)
    requires EngineCore(log)
    ensures EvaluateRecord(cfg, controls, log, r, scope, at).Denied?
            <==> !Evaluable(controls, CurrentRecord(controls, log, r, scope, at), r, at)
  {
    hide DecisionFor, CurrentRecord, EngineCore, Record, RequestDigest, PolicyDigest, RecordCore;
    var record := CurrentRecord(controls, log, r, scope, at);
    FoundCore(controls, log, r, scope, at);
    CoreIdentity(scope, r.actionId, record);
    if record.requestDigest == RequestDigest(r) {
      RequestDigestInjective(record.request, r);
    }
  }

  /** Under the example controls, evaluation happens exactly for the evaluable, and never crashes. */
  lemma EvaluatesIff(cfg: Config, steps: seq<Step>, log: Log, r: PurchaseRequest, scope: TrustedScope, at: int)
    requires EngineSound(cfg, steps, log)
    ensures var record := CurrentRecord(SyntheticControls(), log, r, scope, at);
            var o := EvaluateRecord(cfg, SyntheticControls(), log, r, scope, at);
            && !o.Crashed? && (o.Done? <==> Evaluable(SyntheticControls(), record, r, at))
            && (o.Done?
                ==> && EvaluatedFrom(cfg, SyntheticControls(), record, r, at, o.value)
                    && o.value.decision.verdict
                       == ExpectedVerdict(r, record.intent, at, EngineFacts(record.basis, record.approvals))
                    && (o.value.decision.verdict != Block ==> o.value.decision.route.kind == Continue)
                    && o.value.decision.digest.Some?)
  {
    hide DecisionFor, ExpectedVerdict, LatestState, CurrentRecord, Record, EvaluateRecord, DecisionSound, DraftSound;
    hide EngineSound, SyntheticControls, EngineCore, RecordCore;
    var record := CurrentRecord(SyntheticControls(), log, r, scope, at);
    SoundIsCore(cfg, steps, log);
    DeniedIff(cfg, SyntheticControls(), log, r, scope, at);
    if Evaluable(SyntheticControls(), record, r, at) {
      EvaluatedRecordSound(cfg, SyntheticControls(), steps, log, r, scope, at);
      CurrentRecordSound(cfg, SyntheticControls(), steps, log, r, scope, at);
      EvaluationFound(cfg, SyntheticControls(), log, r, scope, at);
      EvaluatedDecision(cfg, SyntheticControls(), log, r, scope, at);
      DecidedRecord(cfg, steps, scope, r.actionId, record, at);
    }
  }

  /** On any sound log, the example policy issues a ticket exactly when the action is unreserved, its recorded request
      and controls (if any) are these, the clock is in its window, and it is entitled. */
  lemma AuthorizesIff(cfg: Config, steps: seq<Step>, log: Log, r: PurchaseRequest, scope: TrustedScope, at: int,
                      nonce: Text)
    requires EngineSound(cfg, steps, log)
    ensures var record := CurrentRecord(SyntheticControls(), log, r, scope, at);
            AuthorizeStep(cfg, SyntheticControls(), log, r, scope, at, nonce).outcome.Done?
            <==> && Evaluable(SyntheticControls(), record, r, at) && record.status != Reserved
                 && Entitled(cfg, steps, record, at)
  {
    hide EvaluateRecord, CurrentRecord, Entitled, ExpectedVerdict, TicketFor, Record, RecordDenial;
    hide DraftSound, Decides, DecisionFor;
    hide EngineSound, SyntheticControls, EngineFacts;
    var record := CurrentRecord(SyntheticControls(), log, r, scope, at);
    EvaluatesIff(cfg, steps, log, r, scope, at);
    if Evaluable(SyntheticControls(), record, r, at) {
      CurrentRecordSound(cfg, SyntheticControls(), steps, log, r, scope, at);
      PermissiveIffEntitled(cfg, steps, scope, r.actionId, record, at);
    }
  }

  // ---- Approval, exactly ---------------------------------------------------

  /** An action that waits for its operator, seen at `at` under the controls that saw it first. */
  predicate Approvable(cfg: Config, controls: seq<Control>, stored: Option<StateRecord>, token: string, at: int) {
    && token == cfg.operatorSecret
    && stored.Some? && stored.value.status == Pending && stored.value.approvals == []
    && stored.value.policyDigest == PolicyDigest(controls)
    && stored.value.decision.Some? && stored.value.decision.value.verdict == RequireApproval
    && at < stored.value.decision.value.expiresAt
  }

  /** Under any controls, exactly the approvable has a basis for approval, and everything else is denied. */
  lemma BasisIff(cfg: Config, controls: seq<Control>, log: Log, actionId: string, scope: TrustedScope, token: string,
                 at: int)
    requires EngineCore(log)
    ensures var stored := LatestState(log, scope, actionId);
            && (ApprovalBasis(cfg, controls, stored, token, at).Done? <==> Approvable(cfg, controls, stored, token, at))
            && !ApprovalBasis(cfg, controls, stored, token, at).Crashed?
  {
    hide LatestState, PolicyDigest, EngineCore, MakeIntent;
    var stored := LatestState(log, scope, actionId);
    if stored.Some? {
      CoreRecord(log, scope, actionId);
    }
  }

  /** On any sound log, an approval under the example controls succeeds exactly when the secret is right, the action
      waits for approval under these controls, its decision has not expired, the clock is in the action's window, and
      the operator is not the agent. */
  lemma ApprovesIff(cfg: Config, steps: seq<Step>, log: Log, actionId: string, scope: TrustedScope, token: string,
                    at: int, draw: nat)
    requires EngineSound(cfg, steps, log)
    ensures var stored := LatestState(log, scope, actionId);
            ApproveStep(cfg, SyntheticControls(), log, actionId, scope, token, at, draw).outcome.Done?
            <==> && Approvable(cfg, SyntheticControls(), stored, token, at)
                 && stored.value.firstSeen <= at < stored.value.firstSeen + ACTION_WINDOW
                 && cfg.operatorId != AgentId(scope)
  {
    hide LatestState, EvaluateRecord, ApprovalBasis, ApprovedRecord, Record, RecordDenial, AgentId, Approvable;
    hide EngineSound, SyntheticControls, EngineCore;
    var stored := LatestState(log, scope, actionId);
    SoundIsCore(cfg, steps, log);
    BasisIff(cfg, SyntheticControls(), log, actionId, scope, token, at);
    if ApprovalBasis(cfg, SyntheticControls(), stored, token, at).Done? {
      ApprovalOutcome(cfg, steps, log, actionId, scope, token, at, draw);
    }
  }

  lemma ApprovalOutcome(cfg: Config, steps: seq<Step>, log: Log, actionId: string, scope: TrustedScope, token: string,
                        at: int, draw: nat)
    requires EngineSound(cfg, steps, log)
    requires ApprovalBasis(cfg, SyntheticControls(), LatestState(log, scope, actionId), token, at).Done?
    requires Approvable(cfg, SyntheticControls(), LatestState(log, scope, actionId), token, at)
    ensures var record := LatestState(log, scope, actionId).value;
            var approved := ApprovedRecord(cfg, record, at, draw);
            var o := EvaluateRecord(cfg, SyntheticControls(), Record(log, scope, actionId, approved), approved.request,
                                    scope, at);
            && approved.intent.actor.actorId == AgentId(scope)
            && !o.Crashed?
            && (o.Done? && Allowed(o.value.decision)
                <==> record.firstSeen <= at < record.firstSeen + ACTION_WINDOW && cfg.operatorId != AgentId(scope))
  {
    hide LatestState, EvaluateRecord, ApprovalBasis, ApprovedRecord, Record, AgentId, RecordSound, CurrentRecord;
    hide EngineSound, SyntheticControls, ExpectedVerdict, EngineFacts, EngineCore, Changed, RecordCore, Decides;
    var record := LatestState(log, scope, actionId).value;
    var history := steps + [DoApprove(actionId, scope, token, at, draw)];
    SoundIsCore(cfg, steps, log);
    ApprovedFrom(cfg, SyntheticControls(), log, actionId, scope, token, at, draw);
    ApprovalRecorded(cfg, SyntheticControls(), steps, log, actionId, scope, token, at, draw);
    var approved := ApprovedRecord(cfg, record, at, draw);
    var recorded := Record(log, scope, actionId, approved);
    ApprovedPolicy(cfg, record, at, draw);
    EvaluatesIff(cfg, history, recorded, approved.request, scope, at);
    ApprovedEntitled(cfg, steps, log, actionId, scope, token, at, draw);
    PermissiveIffEntitled(cfg, history, scope, actionId, approved, at);
  }

  /** Right after its approval an action is entitled, unless the operator is the agent. */
  lemma ApprovedEntitled(cfg: Config, steps: seq<Step>, log: Log, actionId: string, scope: TrustedScope, token: string,
                         at: int, draw: nat)
    requires EngineSound(cfg, steps, log)
    requires ApprovalBasis(cfg, SyntheticControls(), LatestState(log, scope, actionId), token, at).Done?
    requires Approvable(cfg, SyntheticControls(), LatestState(log, scope, actionId), token, at)
    ensures var history := steps + [DoApprove(actionId, scope, token, at, draw)];
            var approved := ApprovedRecord(cfg, LatestState(log, scope, actionId).value, at, draw);
            && DraftSound(cfg, history, scope, actionId, approved)
            && (Entitled(cfg, history, approved, at) <==> cfg.operatorId != AgentId(scope))
  {
    hide LatestState, ApprovedRecord, AgentId, ApprovesRecord, DecisionSound, RecordCore, WindowSound;
    hide ApprovalBasis, EngineSound, SyntheticControls, Record;
    var record := LatestState(log, scope, actionId).value;
    SoundRecord(cfg, steps, log, scope, actionId);
    SoundFields(cfg, steps, scope, actionId, record);
    ApprovedFact(cfg, steps, record, scope, actionId, at, draw);
    ApprovalRecorded(cfg, SyntheticControls(), steps, log, actionId, scope, token, at, draw);
    ApprovedPolicy(cfg, record, at, draw);
    var approved := ApprovedRecord(cfg, record, at, draw);
    assert approved.approvals != [];
  }

  // ---- Commit and reconciliation, exactly ----------------------------------

  /** The ticket verifies, names this request, and the clock is inside its window. */
  predicate Redeemable(cfg: Config, r: PurchaseRequest, ticket: TicketText, at: int) {
    var p := VerifyTicket(ticket, cfg.ticketSecret);
    && p.Some? && p.value.issuedAt <= at < p.value.expiresAt
    && p.value.actionId == r.actionId && p.value.requestDigest == RequestDigest(r)
  }

  /** In every sound system a commit succeeds exactly for a redeemable ticket; the purchase it returns is the recorded
      one of its action, and no ticket that can be presented ever meets a conflicting purchase. */
  lemma CommitsIff(cfg: Config, s: System, r: PurchaseRequest, ticket: TicketText, at: int)
    requires Sound(cfg, s) && Possible(cfg, s, DoCommit(r, ticket, at))
    ensures var c := CommitStep(cfg.ticketSecret, s.target, r, ticket, at);
            && (c.result.Ok? <==> Redeemable(cfg, r, ticket, at))
            && c.result != Err(IdempotencyConflict)
            && (c.result.Ok?
                ==> PurchaseOf(c.log, VerifyTicket(ticket, cfg.ticketSecret).value.scope, r.actionId)
                    == Some(c.result.value))
  {
    hide EngineCore, Backed, PurchaseOf, EvidenceFor, SignEvidence, Held, TargetSound, Append, RequestDigest;
    var binding := VerifyTicket(ticket, cfg.ticketSecret);
    if binding.Some? {
      HeldHasShape(s.engine, binding.value);
      if TicketRefusal(binding, r, at).None? {
        var scope := binding.value.scope;
        NewPurchaseFound(s.target, scope, r.actionId,
                         SignEvidence(EvidenceFor(r, scope, binding.value.nonce, at), cfg.ticketSecret));
        if PurchaseOf(s.target, scope, r.actionId).Some? {
          PurchaseMatchesTicket(cfg, s, r, ticket, at);
        }
      }
    }
  }

  lemma HeldHasShape(log: Log, p: TicketPayload)
    requires EngineCore(log) && Held(log, p)
    ensures TicketShape(p)
  {
    hide LatestState, MakeIntent, Decides, EngineCore;
    CoreRecord(log, p.scope, p.actionId);
  }

  /** The purchase recorded for a held ticket has the ticket's nonce and the presented request. */
  lemma PurchaseMatchesTicket(cfg: Config, s: System, r: PurchaseRequest, ticket: TicketText, at: int)
    requires Sound(cfg, s) && Possible(cfg, s, DoCommit(r, ticket, at))
    requires TicketRefusal(VerifyTicket(ticket, cfg.ticketSecret), r, at).None?
    requires VerifyTicket(ticket, cfg.ticketSecret).Some?
    requires PurchaseOf(s.target, VerifyTicket(ticket, cfg.ticketSecret).value.scope, r.actionId).Some?
    ensures var p := VerifyTicket(ticket, cfg.ticketSecret).value;
            var previous := PurchaseOf(s.target, p.scope, r.actionId).value;
            previous.evidence.requestDigest == RequestDigest(r) && previous.evidence.nonce == p.nonce
  {
    hide Sound, PurchaseOf, LatestState, RequestDigest, EvidenceFor, TicketRefusal, EngineCore, SignEvidence;
    var p := VerifyTicket(ticket, cfg.ticketSecret).value;
    SoundParts(cfg, s);
    PurchaseIsBacked(cfg, s, p.scope, r.actionId);
    AcceptedTicketIsHeld(cfg, s, r, ticket, at);
    EvidenceFields(r, p.scope, p.nonce, at);
  }

  lemma EvidenceFields(r: PurchaseRequest, scope: TrustedScope, nonce: Text, at: int)
    ensures var e := EvidenceFor(r, scope, nonce, at);
            e.scope == scope && e.actionId == r.actionId && e.requestDigest == RequestDigest(r) && e.nonce == nonce
  {
  }

  /** In every sound system reconciliation succeeds exactly for the recorded purchase of the reserved request. */
  lemma ReconcilesIff(cfg: Config, s: System, r: PurchaseRequest, scope: TrustedScope,
                      receipt: Option<ReceiptClaim>, at: int)
    requires Sound(cfg, s) && Possible(cfg, s, DoReconcile(r, scope, receipt, at))
    ensures ReconcileStep(cfg, s.engine, r, scope, receipt, at).1
            <==> && receipt.Some? && PurchaseOf(s.target, scope, r.actionId) == receipt
                 && LatestState(s.engine, scope, r.actionId).Some?
                 && LatestState(s.engine, scope, r.actionId).value.request == r
  {
    hide Sound, LatestState, PurchaseOf, RequestDigest, SignEvidence, EngineCore, TargetSound, TicketsSound;
    hide EvidenceSound;
    hide Presentable, GenuineEvidence;
    SoundParts(cfg, s);
    if receipt.Some? {
      var c := receipt.value;
      if PurchaseOf(s.target, scope, r.actionId) == receipt {
        PurchaseIsBacked(cfg, s, scope, r.actionId);
        HeldIsReserved(s.engine, scope, r.actionId);
        assert GenuineEvidence(c, cfg.ticketSecret) by { SignedIsGenuine(c.evidence, cfg.ticketSecret); }
      }
      if Reconciles(cfg, LatestState(s.engine, scope, r.actionId), r, scope, receipt) {
        PresentedEvidence(cfg, s, c);
        ReconciledAction(s.engine, r, c);
      }
    }
  }

  lemma SignedIsGenuine(e: Evidence, secret: string)
    ensures GenuineEvidence(SignEvidence(e, secret), secret)
  {
  }

  lemma ReconciledAction(log: Log, r: PurchaseRequest, c: ReceiptClaim)
    requires EngineCore(log) && Backed(log, c.evidence) && c.evidence.requestDigest == RequestDigest(r)
    ensures c.evidence.actionId == r.actionId
    ensures LatestState(log, c.evidence.scope, r.actionId).Some?
    ensures LatestState(log, c.evidence.scope, r.actionId).value.request == r
  {
    hide LatestState, RequestDigest, EngineCore, RecordCore;
    var record := LatestState(log, c.evidence.scope, c.evidence.actionId).value;
    RequestDigestInjective(record.request, r);
    CoreRecord(log, c.evidence.scope, c.evidence.actionId);
    CoreIdentity(c.evidence.scope, c.evidence.actionId, record);
  }
}
