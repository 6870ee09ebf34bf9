/** Which refusal a denied call of the engine gets, and that the ledger says so. */
module Refusals {
  import opened Wrappers
  import opened Contracts
  import opened Requirements
  import opened Ledgers
  import opened Policy
  import opened Tickets
  import opened Engine
  import opened Target
  import opened Protocol
  import opened Entitlement
  import opened Progress

  /** The newest event of the log is the denial of this action, for this reason, at this time. */
  predicate Noted(log: Log, scope: TrustedScope, actionId: string, reason: Denial, at: int) {
    && log != []
    && var e := log[|log| - 1];
       && e.kind == "denied" && e.scope == ScopeKey(scope) && e.actionId == actionId
       && e.payload == DenialPayload(reason, at)
  }

  lemma DenialIsNoted(log: Log, scope: TrustedScope, actionId: string, reason: Denial, at: int)
    ensures Noted(RecordDenial(log, scope, actionId, reason, at), scope, actionId, reason, at)
  {
  }

  // ---- Evaluation ----------------------------------------------------------

  /** Why a recorded action is stale: another request, other controls, or a clock outside its 300 seconds. */
  function Stale(stored: Option<StateRecord>, controls: seq<Control>, r: PurchaseRequest, at: int): Option<Denial> {
    if stored.None? then None
    else if stored.value.request != r then Some(ActionChanged)
    else if stored.value.policyDigest != OfControls(controls) then Some(PolicyChanged)
    else if at < stored.value.firstSeen || stored.value.firstSeen + 300_000_000 <= at then Some(ActionExpired)
    else None
  }

  lemma StaleIff(controls: seq<Control>, log: Log, r: PurchaseRequest, scope: TrustedScope, at: int)
    requires EngineCore(log)
    ensures StaleReason(controls, CurrentRecord(controls, log, r, scope, at), r, at)
            == Stale(LatestState(log, scope, r.actionId), controls, r, at)
  {
    hide LatestState, RequestDigest, RecordCore, MakeIntent, EngineCore;
    var record := CurrentRecord(controls, log, r, scope, at);
    FoundCore(controls, log, r, scope, at);
    CoreIdentity(scope, r.actionId, record);
    if record.requestDigest == RequestDigest(r) {
      RequestDigestInjective(record.request, r);
    }
  }

  /** Under any controls: an evaluation is denied exactly for a stale action, for that reason, and the ledger notes
      it. */
  lemma EvaluationRefusals(cfg: Config, controls: seq<Control>, log: Log, r: PurchaseRequest, scope: TrustedScope,
                           at: int)
    requires EngineCore(log)
    ensures var e := EvaluateStep(cfg, controls, log, r, scope, at);
            var stale := Stale(LatestState(log, scope, r.actionId), controls, r, at);
            && (e.outcome.Denied? <==> stale.Some?)
            && (stale.Some? ==> e.outcome == Denied(stale.value)
                                && Noted(e.log, scope, r.actionId, stale.value, at))
  {
    hide LatestState, DecisionFor, Record, RecordDenial, StaleReason, CurrentRecord, Stale, EngineCore, Noted;
    StaleIff(controls, log, r, scope, at);
    var stale := Stale(LatestState(log, scope, r.actionId), controls, r, at);
    if stale.Some? {
      DenialIsNoted(log, scope, r.actionId, stale.value, at);
    }
  }

  // ---- Authorization -------------------------------------------------------

  /** The action carries an operator's fact that counts now. */
  predicate CountsNow(stored: Option<StateRecord>, at: int) {
    && stored.Some? && stored.value.approvals != []
    && stored.value.approvals[0].validFrom <= at < stored.value.approvals[0].validUntil
  }

  lemma FactMatchesIff(cfg: Config, record: StateRecord, f: ApprovalFact, approvedAt: int, at: int)
    requires GenuineFact(cfg, record, f, approvedAt)
    ensures ApprovalMatches(Approval(), f, Situation(record.intent, SnapshotOf(SyntheticControls(), at),
                                                     EngineFacts(record.basis, record.approvals), {}))
            <==> f.validFrom <= at < f.validUntil
  {
    hide SyntheticControls, ContextDigest;
  }

  lemma AgentIsDependent(cfg: Config, record: StateRecord, scope: TrustedScope, f: ApprovalFact, approvedAt: int)
    requires record.intent.actor.actorId == AgentId(scope) && GenuineFact(cfg, record, f, approvedAt)
    requires cfg.operatorId == AgentId(scope)
    ensures AnyDependent([f], Approval(), record.intent)
  {
    hide GenuineFact, AgentId;
    FactFields(cfg, record, f, approvedAt);
    assert cfg.operatorId in LineageIds(record.intent.actor) * LineageIds(f.approver);
    assert IndependenceFails(Approval(), [f][0], record.intent);
  }

  /** What the example policy says of a sound record, by its purchase and its approval. */
  lemma ExpectedOf(cfg: Config, steps: seq<Step>, scope: TrustedScope, actionId: string, record: StateRecord, at: int)
    requires DraftSound(cfg, steps, scope, actionId, record)
    ensures ExpectedVerdict(record.request, record.intent, at, EngineFacts(record.basis, record.approvals))
            == if record.request.recurring then Block
               else if record.request.amountMinor <= LIMIT then Allow
               else if !CountsNow(Some(record), at) then RequireApproval
               else if cfg.operatorId == AgentId(scope) then Block
               else Allow
  {
    hide GenuineFact, SyntheticControls, AgentId, Matching, AnyDependent, MakeIntent, ApprovalMatches;
    hide IndependenceFails;
    var facts := EngineFacts(record.basis, record.approvals);
    var s := Situation(record.intent, SnapshotOf(SyntheticControls(), at), facts, {});
    if !record.request.recurring && record.request.amountMinor > LIMIT {
      if record.approvals == [] {
        OneMatchingNone(s);
        assert !AnyDependent([], Approval(), record.intent) by { NobodyDependent(record.intent); }
      } else {
        var j :| 0 <= j < |steps| && ApprovesRecord(cfg, steps[j], record);
        var f := record.approvals[0];
        assert record.approvals == [f];
        OneMatching(f, s);
        FactMatchesIff(cfg, record, f, steps[j].at, at);
        CoreIdentity(scope, actionId, record);
        NobodyDependent(record.intent);
        if cfg.operatorId == AgentId(scope) {
          AgentIsDependent(cfg, record, scope, f, steps[j].at);
        } else {
          OperatorIsIndependent(cfg, record, scope, f, steps[j].at);
          OnlyOne(f, record.intent);
        }
      }
    }
  }

  lemma NobodyDependent(i: ActionIntent)
    ensures !AnyDependent([], Approval(), i)
  {
  }

  lemma OnlyOne(f: ApprovalFact, i: ActionIntent)
    requires !IndependenceFails(Approval(), f, i)
    ensures !AnyDependent([f], Approval(), i)
  {
    hide IndependenceFails;
  }

  /** What the policy says to an authorization: a ticket if it permits and its route is to continue, else whether it
      asks for an approval. */
  predicate Answered(d: Decision, o: Outcome<TicketText>) {
    if (d.verdict == Allow || d.verdict == AllowWithConditions) && d.route.kind == Continue then o.Done?
    else if d.verdict == RequireApproval then o == Denied(ApprovalIsRequired)
    else o == Denied(PolicyDenied)
  }

  /** Under any controls: every denied authorization notes its reason as the newest event, a stale action is denied for
      that reason, one whose evaluation fails leaves the ledger as it was, then a reserved one is denied as such, and
      any other gets what the policy says of it now. */
  lemma AuthorizationNotes(cfg: Config, controls: seq<Control>, log: Log, r: PurchaseRequest, scope: TrustedScope,
                           at: int, nonce: Text)
    requires EngineCore(log)
    ensures var e := AuthorizeStep(cfg, controls, log, r, scope, at, nonce);
            var stored := LatestState(log, scope, r.actionId);
            var stale := Stale(stored, controls, r, at);
            && (e.outcome.Denied? ==> Noted(e.log, scope, r.actionId, e.outcome.reason, at))
            && (stale.Some? ==> e.outcome == Denied(stale.value))
            && (stale.None?
                ==> match DecisionFor(cfg, controls, CurrentRecord(controls, log, r, scope, at), at)
                    case Err(_) => e.outcome.Crashed? && e.log == log
                    case Ok(d) =>
                      if stored.Some? && stored.value.status == Reserved then
                        e.outcome == Denied(ActionAlreadyReserved)
                      else Answered(d, e.outcome))
  {
    DecisionDecides(cfg, controls, CurrentRecord(controls, log, r, scope, at), at);
    hide LatestState, DecisionFor, Record, RecordDenial, StaleReason, Stale, EngineCore, Noted, TicketFor;
    StaleIff(controls, log, r, scope, at);
    forall mid: Log, reason: Denial
      ensures Noted(RecordDenial(mid, scope, r.actionId, reason, at), scope, r.actionId, reason, at)
    {
      DenialIsNoted(mid, scope, r.actionId, reason, at);
    }
  }

  /** Under the example controls, on any sound log: which answer an authorization gets, by the request and the recorded
      action. A stale action is denied as such; then a reserved one; a recurring purchase is denied by the policy; a
      small one gets its ticket; a large one needs an approval that counts now, and is denied by the policy if the
      operator is the agent itself. The ledger notes every denial. */
  lemma AuthorizationAnswers(cfg: Config, steps: seq<Step>, log: Log, r: PurchaseRequest, scope: TrustedScope, at: int,
                             nonce: Text)
    requires EngineSound(cfg, steps, log)
    ensures var e := AuthorizeStep(cfg, SyntheticControls(), log, r, scope, at, nonce);
            var stored := LatestState(log, scope, r.actionId);
            var stale := Stale(stored, SyntheticControls(), r, at);
            && (e.outcome.Denied? ==> Noted(e.log, scope, r.actionId, e.outcome.reason, at))
            && (if stale.Some? then e.outcome == Denied(stale.value)
                else if stored.Some? && stored.value.status == Reserved then
                  e.outcome == Denied(ActionAlreadyReserved)
                else if r.recurring then e.outcome == Denied(PolicyDenied)
                else if r.amountMinor <= 7500 then e.outcome.Done?
                else if !CountsNow(stored, at) then e.outcome == Denied(ApprovalIsRequired)
                else if cfg.operatorId == AgentId(scope) then e.outcome == Denied(PolicyDenied)
                else e.outcome.Done?)
  {
    hide LatestState, EvaluateRecord, CurrentRecord, Stale, Noted, EngineSound, SyntheticControls, EngineCore, AgentId;
    hide TicketFor, Record, RecordDenial, ExpectedVerdict, DraftSound, StaleReason, DecisionFor, Decides, EngineFacts;
    var controls := SyntheticControls();
    var stored := LatestState(log, scope, r.actionId);
    var record := CurrentRecord(controls, log, r, scope, at);
    SoundIsCore(cfg, steps, log);
    AuthorizationNotes(cfg, controls, log, r, scope, at, nonce);
    EvaluatesIff(cfg, steps, log, r, scope, at);
    StaleIff(controls, log, r, scope, at);
    EvaluableIff(controls, log, r, scope, at);
    FoundIsSuccessor(controls, log, r, scope, at);
    if Evaluable(controls, record, r, at) {
      CurrentRecordSound(cfg, controls, steps, log, r, scope, at);
      ExpectedOf(cfg, steps, scope, r.actionId, record, at);
    }
  }

  lemma EvaluableIff(controls: seq<Control>, log: Log, r: PurchaseRequest, scope: TrustedScope, at: int)
    ensures Evaluable(controls, CurrentRecord(controls, log, r, scope, at), r, at)
            <==> Stale(LatestState(log, scope, r.actionId), controls, r, at).None?
  {
    hide LatestState, MakeIntent, RequestDigest;
  }

  // ---- Approval ------------------------------------------------------------

  /** Why nobody can approve the action, up to where the approval would be recorded. */
  function Unapprovable(cfg: Config, controls: seq<Control>, stored: Option<StateRecord>, token: string, at: int)
    : Option<Denial>
    requires stored.Some? ==> stored.value.decision.Some?
  {
    if token != cfg.operatorSecret then Some(OperatorAuthenticationFailed)
    else if stored.None? then Some(UnknownPendingAction)
    else if stored.value.status != Pending || stored.value.approvals != [] then Some(ActionNotPending)
    else if stored.value.decision.value.expiresAt <= at then Some(PendingDecisionExpired)
    else if stored.value.decision.value.verdict != RequireApproval then Some(ApprovalNotRequired)
    else if stored.value.policyDigest != OfControls(controls) then Some(PolicyChanged)
    else None
  }

  /** Under any controls: every denied approval notes its reason as the newest event. It is denied for the first thing
      that is wrong before the approval is recorded: secret, unknown action, not pending, decision expired, no approval
      asked for, other controls. */
  lemma ApprovalNotes(cfg: Config, controls: seq<Control>, log: Log, actionId: string, scope: TrustedScope,
                      token: string, at: int, draw: nat)
    requires EngineCore(log)
    ensures LatestState(log, scope, actionId).Some? ==> LatestState(log, scope, actionId).value.decision.Some?
    ensures var e := ApproveStep(cfg, controls, log, actionId, scope, token, at, draw);
            var unapprovable := Unapprovable(cfg, controls, LatestState(log, scope, actionId), token, at);
            && (e.outcome.Denied? ==> Noted(e.log, scope, actionId, e.outcome.reason, at))
            && (unapprovable.Some? ==> e.outcome == Denied(unapprovable.value))
  {
    hide LatestState, EvaluateRecord, Record, RecordDenial, EngineCore, Noted, ApprovedRecord, Allowed, AgentId;
    hide RecordCore;
    if LatestState(log, scope, actionId).Some? {
      CoreRecord(log, scope, actionId);
    }
    forall mid: Log, reason: Denial
      ensures Noted(RecordDenial(mid, scope, actionId, reason, at), scope, actionId, reason, at)
    {
      DenialIsNoted(mid, scope, actionId, reason, at);
    }
  }

  /** Under any controls: once recorded, an approval is denied outside the action's window as expired, undone where its
      evaluation fails, and otherwise approved or rejected by what the policy says of it now. */
  lemma ApprovalDecided(cfg: Config, controls: seq<Control>, log: Log, actionId: string, scope: TrustedScope,
                        token: string, at: int, draw: nat)
    requires EngineCore(log) && ApprovalBasis(cfg, controls, LatestState(log, scope, actionId), token, at).Done?
    ensures var stored := LatestState(log, scope, actionId).value;
            var e := ApproveStep(cfg, controls, log, actionId, scope, token, at, draw);
            if at < stored.firstSeen || stored.firstSeen + 300_000_000 <= at then e.outcome == Denied(ActionExpired)
            else
              match DecisionFor(cfg, controls, ApprovedRecord(cfg, stored, at, draw), at)
              case Err(_) => e.outcome.Crashed? && e.log == log
              case Ok(d) =>
                e.outcome == if (d.verdict == Allow || d.verdict == AllowWithConditions) && d.route.kind == Continue
                             then Done(d) else Denied(ApprovalRejected)
  {
    hide LatestState, ApprovedRecord, RecordDenial, AgentId, EngineCore, CurrentRecord, DecisionFor, StaleReason, Stale;
    hide ApprovalBasis, Record, RecordCore, Changed;
    var stored := LatestState(log, scope, actionId).value;
    var approved := ApprovedRecord(cfg, stored, at, draw);
    var recorded := Record(log, scope, actionId, approved);
    ApprovedFrom(cfg, controls, log, actionId, scope, token, at, draw);
    ApprovedPolicy(cfg, stored, at, draw);
    BasisUnapprovable(cfg, controls, Some(stored), token, at);
    StoredIsCurrent(controls, recorded, approved.request, scope, actionId, at, approved);
    StaleIff(controls, recorded, approved.request, scope, at);
    StaleRecord(approved, controls, at);
  }

  /** Under the example controls, on any sound log: which answer an approval gets. After the reasons not to approve at
      all, it is denied outside the action's window as expired, and rejected exactly if the operator is the agent. */
  lemma ApprovalAnswers(cfg: Config, steps: seq<Step>, log: Log, actionId: string, scope: TrustedScope, token: string,
                        at: int, draw: nat)
    requires EngineSound(cfg, steps, log)
    ensures LatestState(log, scope, actionId).Some? ==> LatestState(log, scope, actionId).value.decision.Some?
    ensures var e := ApproveStep(cfg, SyntheticControls(), log, actionId, scope, token, at, draw);
            var stored := LatestState(log, scope, actionId);
            var unapprovable := Unapprovable(cfg, SyntheticControls(), stored, token, at);
            && (e.outcome.Denied? ==> Noted(e.log, scope, actionId, e.outcome.reason, at))
            && (if unapprovable.Some? then e.outcome == Denied(unapprovable.value)
                else if at < stored.value.firstSeen || stored.value.firstSeen + 300_000_000 <= at then
                  e.outcome == Denied(ActionExpired)
                else if cfg.operatorId == AgentId(scope) then e.outcome == Denied(ApprovalRejected)
                else e.outcome.Done?)
  {
    hide LatestState, EvaluateRecord, ApprovedRecord, Record, RecordDenial, AgentId, Noted, Allowed, ApprovalBasis;
    hide EngineSound, SyntheticControls, EngineCore, RecordSound, CurrentRecord, ExpectedVerdict, StaleReason;
    hide Decides, DecisionFor;
    var controls := SyntheticControls();
    var stored := LatestState(log, scope, actionId);
    SoundIsCore(cfg, steps, log);
    ApprovalNotes(cfg, controls, log, actionId, scope, token, at, draw);
    BasisUnapprovable(cfg, controls, stored, token, at);
    BasisIff(cfg, controls, log, actionId, scope, token, at);
    if ApprovalBasis(cfg, controls, stored, token, at).Done? {
      ApprovalEvaluated(cfg, steps, log, actionId, scope, token, at, draw);
    }
  }

  lemma BasisUnapprovable(cfg: Config, controls: seq<Control>, stored: Option<StateRecord>, token: string, at: int)
    requires stored.Some? ==> stored.value.decision.Some?
    ensures var basis := ApprovalBasis(cfg, controls, stored, token, at);
            var unapprovable := Unapprovable(cfg, controls, stored, token, at);
            && (basis.Denied? <==> unapprovable.Some?)
            && (unapprovable.None? ==> stored.Some?)
            && (basis.Done? ==> stored.value.policyDigest == OfControls(controls))
  {
  }

  lemma ApprovalEvaluated(cfg: Config, steps: seq<Step>, log: Log, actionId: string, scope: TrustedScope,
                          token: string, at: int, draw: nat)
    requires EngineSound(cfg, steps, log)
    requires ApprovalBasis(cfg, SyntheticControls(), LatestState(log, scope, actionId), token, at).Done?
    ensures var stored := LatestState(log, scope, actionId).value;
            var e := ApproveStep(cfg, SyntheticControls(), log, actionId, scope, token, at, draw);
            if at < stored.firstSeen || stored.firstSeen + 300_000_000 <= at then e.outcome == Denied(ActionExpired)
            else if cfg.operatorId == AgentId(scope) then e.outcome == Denied(ApprovalRejected)
            else e.outcome.Done?
  {
    hide LatestState, EvaluateRecord, ApprovedRecord, Record, RecordDenial, AgentId, Allowed, ApprovalBasis;
    hide EngineSound, SyntheticControls, EngineCore, RecordSound, CurrentRecord, ExpectedVerdict, Evaluable, Approvable;
    hide Decides, DecisionFor, Changed, RecordCore, Stale;
    var controls := SyntheticControls();
    var stored := LatestState(log, scope, actionId).value;
    SoundIsCore(cfg, steps, log);
    BasisIff(cfg, controls, log, actionId, scope, token, at);
    ApprovalOutcome(cfg, steps, log, actionId, scope, token, at, draw);
    ApprovedFrom(cfg, controls, log, actionId, scope, token, at, draw);
    ApprovedPolicy(cfg, stored, at, draw);
    var approved := ApprovedRecord(cfg, stored, at, draw);
    var recorded := Record(log, scope, actionId, approved);
    StaleIff(controls, recorded, approved.request, scope, at);
    BasisUnapprovable(cfg, controls, Some(stored), token, at);
    StaleNow(cfg, controls, recorded, approved.request, scope, at);
    StaleRecord(approved, controls, at);
  }

  lemma StaleNow(cfg: Config, controls: seq<Control>, log: Log, r: PurchaseRequest, scope: TrustedScope, at: int)
    ensures var stale := StaleReason(controls, CurrentRecord(controls, log, r, scope, at), r, at);
            && (EvaluateRecord(cfg, controls, log, r, scope, at).Denied? <==> stale.Some?)
            && (stale.Some? ==> EvaluateRecord(cfg, controls, log, r, scope, at) == Denied(stale.value))
  {
    hide DecisionFor, CurrentRecord, Record;
  }

  lemma StaleRecord(record: StateRecord, controls: seq<Control>, at: int)
    requires record.policyDigest == OfControls(controls)
    ensures Stale(Some(record), controls, record.request, at)
            == if at < record.firstSeen || record.firstSeen + 300_000_000 <= at then Some(ActionExpired) else None
  {
  }

  // ---- Commit --------------------------------------------------------------

  /** The target's own events of an action: its purchases. */
  predicate Bought(log: TargetLog, k: nat, scope: TrustedScope, actionId: string)
    requires k < |log|
  {
    log[k].kind == "purchase" && log[k].scope == ScopeKey(scope) && log[k].actionId == actionId
  }

  /** The identifier is of this purchase alone. */
  ghost predicate Identifies(id: Digest, r: PurchaseRequest, scope: TrustedScope, nonce: Text) {
    forall r', scope', nonce' :: EvidenceId(r', scope', nonce') == id <==> r' == r && scope' == scope && nonce' == nonce
  }

  lemma EvidenceIdentifies(r: PurchaseRequest, scope: TrustedScope, nonce: Text)
    ensures Identifies(EvidenceId(r, scope, nonce), r, scope, nonce)
  {
    hide RequestJson, ScopeJson;
    forall r', scope', nonce' | EvidenceId(r', scope', nonce') == EvidenceId(r, scope, nonce)
      ensures r' == r && scope' == scope && nonce' == nonce
    {
      var f, f' := EvidenceId(r, scope, nonce).json.fields, EvidenceId(r', scope', nonce').json.fields;
      assert f["scope"] == f'["scope"] && f["request_digest"] == f'["request_digest"] && f["nonce"] == f'["nonce"];
      RequestDigestInjective(r, r');
      ScopeKeyInjective(scope, scope');
    }
  }

  /** A receipt for exactly this request under exactly this ticket at this time, signed by the target. */
  ghost predicate Receipts(c: ReceiptClaim, secret: string, r: PurchaseRequest, p: TicketPayload, at: int) {
    && c.evidence.status == "committed" && c.evidence.actionId == r.actionId && c.evidence.scope == p.scope
    && c.evidence.requestDigest == p.requestDigest && c.evidence.nonce == p.nonce
    && c.evidence.amountMinor == r.amountMinor && c.evidence.committedAt == at
    && Identifies(c.evidence.evidenceId, r, p.scope, p.nonce)
    && c.mac.Some? && c.mac.value.key == secret && c.mac.value.message == EvidenceMessage(c.evidence)
  }

  /** The ticket is signed under the secret and is for this target. */
  predicate ForTarget(ticket: TicketText, secret: string) {
    && ticket.SignedTicket? && ticket.mac.key == secret && ticket.mac.message == TicketMessage(ticket.payload)
    && ticket.payload.purpose == "synthetic-purchase-only" && ticket.payload.httpMethod == "POST"
    && ticket.payload.path == "/purchases"
  }

  /** Which answer a commit gets. Every refusal and every repeat leaves the target's ledger as it was; a first purchase
      appends one event with the receipt returned. */
  lemma CommitAnswers(secret: string, log: TargetLog, r: PurchaseRequest, ticket: TicketText, at: int)
    ensures var c := CommitStep(secret, log, r, ticket, at);
            if !ForTarget(ticket, secret) then c == Committed(log, Err(InvalidTicket))
            else
              var p := ticket.payload;
              if at < p.issuedAt || p.expiresAt <= at then c == Committed(log, Err(TicketExpired))
              else if p.actionId != r.actionId || p.requestDigest != RequestDigest(r) then
                c == Committed(log, Err(TicketRequestMismatch))
              else if forall k :: 0 <= k < |log| ==> !Bought(log, k, p.scope, r.actionId) then
                && |c.log| == |log| + 1 && c.log[..|log|] == log && Bought(c.log, |log|, p.scope, r.actionId)
                && c.result == Ok(c.log[|log|].payload) && Receipts(c.result.value, secret, r, p, at)
              else
                exists k :: 0 <= k < |log| && Bought(log, k, p.scope, r.actionId)
                            && (forall j :: k < j < |log| ==> !Bought(log, j, p.scope, r.actionId))
                            && var e := log[k].payload.evidence;
                               c == Committed(log, if e.requestDigest == p.requestDigest && e.nonce == p.nonce
                                                   then Ok(log[k].payload) else Err(IdempotencyConflict))
  {
    hide RequestDigest, ScopeKey, Latest, EvidenceId, Identifies;
    if ForTarget(ticket, secret) {
      var p := ticket.payload;
      EvidenceIdentifies(r, p.scope, p.nonce);
      LatestIff(log, ScopeKey(p.scope), r.actionId, "purchase");
      forall k | 0 <= k < |log|
        ensures Bought(log, k, p.scope, r.actionId)
                <==> Ledgers.Concerns(log[k], ScopeKey(p.scope), r.actionId, "purchase")
      {
      }
    }
  }

  // ---- Reconciliation ------------------------------------------------------

  /** On any ledger: a reconciliation appends one event with what was presented and its verdict. It succeeds exactly for
      a reserved action and a receipt signed under the secret as committed, for this request, the reserved nonce and
      this scope. */
  lemma ReconcileAnswers(cfg: Config, log: Log, r: PurchaseRequest, scope: TrustedScope, receipt: Option<ReceiptClaim>,
                         at: int)
    ensures var (after, valid) := ReconcileStep(cfg, log, r, scope, receipt, at);
            var stored := LatestState(log, scope, r.actionId);
            && |after| == |log| + 1 && after[..|log|] == log
            && after[|log|].kind == "reconciliation" && after[|log|].scope == ScopeKey(scope)
            && after[|log|].actionId == r.actionId
            && after[|log|].payload == ReconciliationPayload(at, valid, receipt)
            && (valid
                <==> && stored.Some? && stored.value.status == Reserved && stored.value.reservation.Some?
                     && receipt.Some? && receipt.value.mac.Some? && receipt.value.mac.value.key == cfg.ticketSecret
                     && receipt.value.mac.value.message == EvidenceMessage(receipt.value.evidence)
                     && receipt.value.evidence.status == "committed"
                     && receipt.value.evidence.requestDigest == RequestDigest(r)
                     && receipt.value.evidence.nonce == stored.value.reservation.value.nonce
                     && receipt.value.evidence.scope == scope)
  {
    hide LatestState, RequestDigest, ScopeKey;
  }
}
