/** Up to the ticket, the protocol does what it is for: an honest purchase gets its ticket from the example policy,
    whatever else happens around it. */
module HonestPath {
  import opened Wrappers
  import opened Contracts
  import opened Evaluator
  import opened Policy
  import opened Tickets
  import opened Engine
  import opened Protocol
  import opened Entitlement
  import opened Authority
  import opened Progress

  // ---- The stages of a large purchase --------------------------------------

  /** An evaluated, large, one-time purchase, waiting for its operator; its decision lasts for 120 seconds or more. */
  predicate Waiting(record: Option<StateRecord>, r: PurchaseRequest, since: int) {
    && record.Some? && record.value.request == r && record.value.firstSeen == since && Exemplary(record.value)
    && record.value.status == Pending && record.value.approvals == [] && record.value.decision.Some?
    && record.value.decision.value.verdict == RequireApproval
    && since + ENGINE_TTL * MICROS_PER_SECOND <= record.value.decision.value.expiresAt
  }

  /** An approved purchase and a time until which its one approval lasts. */
  predicate ApprovedUntil(record: Option<StateRecord>, r: PurchaseRequest, since: int, approvedAt: int, until: int) {
    && record.Some? && record.value.request == r && record.value.firstSeen == since && Exemplary(record.value)
    && record.value.status == Approved && |record.value.approvals| == 1
    && record.value.approvals[0].validFrom == approvedAt && until <= record.value.approvals[0].validUntil
  }

  lemma NoFactsVerdict(r: PurchaseRequest, i: ActionIntent, at: int, basis: Option<DecisionRef>)
    requires !r.recurring && r.amountMinor > LIMIT
    ensures ExpectedVerdict(r, i, at, EngineFacts(basis, [])) == RequireApproval
  {
  }

  lemma FirstEvaluationWaits(cfg: Config, steps: seq<Step>, i: nat, r: PurchaseRequest, scope: TrustedScope, at: int)
    requires i < |steps| && steps[i] == DoEvaluate(r, scope, at) && StateAt(cfg, steps, i, scope, r.actionId).None?
    requires UnderExample(cfg, steps, i) && !r.recurring && r.amountMinor > LIMIT
    ensures Waiting(StateAt(cfg, steps, i + 1, scope, r.actionId), r, at)
  {
    hide Run, EngineSound, LatestState, EvaluateRecord, ExpectedVerdict, MakeIntent, RecordCore, EngineCore;
    hide SyntheticControls, Record, VerifiedDecision;
    var log := Run(cfg, steps[..i]).engine;
    EngineSoundAt(cfg, steps, i);
    StateAfter(cfg, steps, i, scope, r.actionId);
    EvaluatesIff(cfg, steps[..i], log, r, scope, at);
    NoFactsVerdict(r, CurrentRecord(SyntheticControls(), log, r, scope, at).intent, at, None);
  }

  // ---- The approval --------------------------------------------------------

  /** An approval that gets past its refusals is recorded, whatever its outcome: even a denied call leaves the action
      approved, with the operator's one fact. */
  lemma ApprovedState(cfg: Config, steps: seq<Step>, log: Log, actionId: string, scope: TrustedScope, token: string,
                      at: int, draw: nat)
    requires EngineSound(cfg, steps, log)
    requires Approvable(cfg, SyntheticControls(), LatestState(log, scope, actionId), token, at)
    ensures var stored := LatestState(log, scope, actionId);
            var e := ApproveStep(cfg, SyntheticControls(), log, actionId, scope, token, at, draw);
            var after := LatestState(e.log, scope, actionId);
            && !e.outcome.Crashed? && after.Some?
            && after.value.request == stored.value.request && after.value.firstSeen == stored.value.firstSeen
            && after.value.policyDigest == stored.value.policyDigest
            && after.value.status == Approved && |after.value.approvals| == 1
            && after.value.approvals[0].validFrom == at
            && after.value.approvals[0].validUntil == Min(stored.value.decision.value.expiresAt, at + APPROVAL_WINDOW)
  {
    hide LatestState, EvaluateRecord, ApprovalBasis, ApprovedRecord, Record, AgentId, Allowed, RecordSound;
    hide EngineSound, SyntheticControls, RecordDenial, Changed, EngineCore, RecordCore, CurrentRecord, ExpectedVerdict;
    var controls := SyntheticControls();
    var stored := LatestState(log, scope, actionId);
    SoundIsCore(cfg, steps, log);
    BasisIff(cfg, controls, log, actionId, scope, token, at);
    SoundRecord(cfg, steps, log, scope, actionId);
    ApprovedFact(cfg, steps, stored.value, scope, actionId, at, draw);
    ApprovedPolicy(cfg, stored.value, at, draw);
    ApprovedFrom(cfg, controls, log, actionId, scope, token, at, draw);
    ApprovalRecorded(cfg, controls, steps, log, actionId, scope, token, at, draw);
    var approved := ApprovedRecord(cfg, stored.value, at, draw);
    var recorded := Record(log, scope, actionId, approved);
    EvaluatesIff(cfg, steps + [DoApprove(actionId, scope, token, at, draw)], recorded, approved.request, scope, at);
    ApproveStepChanges(cfg, controls, log, actionId, scope, token, at, draw);
    var change := ApproveChange(cfg, controls, log, actionId, scope, token, at, draw).value;
    ChangedTo(log, ApproveStep(cfg, controls, log, actionId, scope, token, at, draw).log, scope, actionId,
              change.record);
  }

  /** A waiting action's approval is denied and yet recorded exactly when the clock is outside the action's window
      or the operator is the agent. */
  lemma DeniedYetRecordedIff(cfg: Config, steps: seq<Step>, log: Log, actionId: string, scope: TrustedScope,
                             token: string, at: int, draw: nat)
    requires EngineSound(cfg, steps, log)
    requires Approvable(cfg, SyntheticControls(), LatestState(log, scope, actionId), token, at)
    ensures var stored := LatestState(log, scope, actionId).value;
            var e := ApproveStep(cfg, SyntheticControls(), log, actionId, scope, token, at, draw);
            var after := LatestState(e.log, scope, actionId);
            (e.outcome.Denied? && after.Some? && after.value.status == Approved && |after.value.approvals| == 1)
            <==> at < stored.firstSeen || at >= stored.firstSeen + ACTION_WINDOW || cfg.operatorId == AgentId(scope)
  {
    hide EngineSound, LatestState, ApproveStep, AgentId, SyntheticControls;
    ApprovesIff(cfg, steps, log, actionId, scope, token, at, draw);
    ApprovedState(cfg, steps, log, actionId, scope, token, at, draw);
  }

  /** And it happens: approve a large purchase at a clock before its evaluation, or as the agent's own operator. */
  lemma DeniedYetRecordedRun(cfg: Config, r: PurchaseRequest, scope: TrustedScope, t0: int, t1: int, draw: nat)
    requires !r.recurring && r.amountMinor > LIMIT
    requires t1 < t0 || (t1 < t0 + APPROVAL_WINDOW && cfg.operatorId == AgentId(scope))
    ensures var steps := [DoRestart(SyntheticControls()), DoEvaluate(r, scope, t0),
                          DoApprove(r.actionId, scope, cfg.operatorSecret, t1, draw)];
            var e := ApproveStep(cfg, SyntheticControls(), Run(cfg, steps[..2]).engine, r.actionId, scope,
                                 cfg.operatorSecret, t1, draw);
            var after := StateAt(cfg, steps, 3, scope, r.actionId);
            && PossibleRun(cfg, steps) && UnderExample(cfg, steps, 2) && e.outcome.Denied?
            && after.Some? && after.value.status == Approved && |after.value.approvals| == 1
  {
    hide EngineSound, LatestState, ApproveStep, AgentId, SyntheticControls, Run, PossibleRun, EvaluateStep;
    var steps := [DoRestart(SyntheticControls()), DoEvaluate(r, scope, t0),
                  DoApprove(r.actionId, scope, cfg.operatorSecret, t1, draw)];
    assert PossibleRun(cfg, steps) by { EngineRunPossible(cfg, steps); }
    RunStep(cfg, steps, 0);
    RunStep(cfg, steps, 1);
    RunStep(cfg, steps, 2);
    NothingAtStart(cfg, steps, scope, r.actionId);
    FirstEvaluationWaits(cfg, steps, 1, r, scope, t0);
    EngineSoundAt(cfg, steps, 2);
    DeniedYetRecordedIff(cfg, steps[..2], Run(cfg, steps[..2]).engine, r.actionId, scope, cfg.operatorSecret, t1, draw);
  }

  lemma EngineRunPossible(cfg: Config, steps: seq<Step>)
    requires forall k :: 0 <= k < |steps| ==> !steps[k].DoCommit? && !steps[k].DoReconcile?
    ensures PossibleRun(cfg, steps)
  {
    hide Run;
  }

  lemma ApprovalIsRecorded(cfg: Config, steps: seq<Step>, i: nat, r: PurchaseRequest, scope: TrustedScope, since: int,
                           at: int, draw: nat)
    requires i < |steps| && steps[i] == DoApprove(r.actionId, scope, cfg.operatorSecret, at, draw)
    requires UnderExample(cfg, steps, i) && Waiting(StateAt(cfg, steps, i, scope, r.actionId), r, since)
    requires since <= at < since + APPROVAL_WINDOW && cfg.operatorId != AgentId(scope)
    ensures ApproveStep(cfg, SyntheticControls(), Run(cfg, steps[..i]).engine, r.actionId, scope, cfg.operatorSecret,
                        at, draw).outcome.Done?
    ensures ApprovedUntil(StateAt(cfg, steps, i + 1, scope, r.actionId), r, since, at, since + APPROVAL_WINDOW)
  {
    hide Run, EngineSound, LatestState, AgentId, ApproveStep, SyntheticControls;
    var log := Run(cfg, steps[..i]).engine;
    EngineSoundAt(cfg, steps, i);
    RunStep(cfg, steps, i);
    ApprovesIff(cfg, steps[..i], log, r.actionId, scope, cfg.operatorSecret, at, draw);
    ApprovedState(cfg, steps[..i], log, r.actionId, scope, cfg.operatorSecret, at, draw);
  }

  // ---- Retries change nothing that matters ---------------------------------

  /** The step is the operator's approval of this action, to an engine with the example controls. */
  predicate OperatorApproves(cfg: Config, steps: seq<Step>, k: nat, scope: TrustedScope, actionId: string)
    requires k < |steps|
  {
    && steps[k].DoApprove? && steps[k].scope == scope && steps[k].actionId == actionId
    && steps[k].token == cfg.operatorSecret && UnderExample(cfg, steps, k)
  }

  predicate Authorizes(cfg: Config, steps: seq<Step>, k: nat, scope: TrustedScope, actionId: string)
    requires k < |steps|
  {
    steps[k].DoAuthorize? && steps[k].scope == scope && steps[k].r.actionId == actionId && UnderExample(cfg, steps, k)
  }

  /** Evaluating a waiting action again, for any request, at any time and under any controls, leaves it waiting, and
      refuses a ticket. */
  lemma WaitingEvaluated(cfg: Config, controls: seq<Control>, steps: seq<Step>, log: Log, r': PurchaseRequest,
                         scope: TrustedScope, at: int, r: PurchaseRequest, since: int)
    requires EngineSound(cfg, steps, log) && r'.actionId == r.actionId
    requires !r.recurring && r.amountMinor > LIMIT && Waiting(LatestState(log, scope, r.actionId), r, since)
    ensures var o := EvaluateRecord(cfg, controls, log, r', scope, at);
            o.Done? ==> Waiting(Some(o.value.record), r, since) && AuthorizeRefusal(o.value).Some?
  {
    hide EngineSound, LatestState, EvaluateRecord, ExpectedVerdict, SyntheticControls, Record, CurrentRecord;
    hide EngineCore, RecordCore, VerifiedDecision, DecisionFor;
    var record := LatestState(log, scope, r.actionId).value;
    StoredIsCurrent(controls, log, r', scope, r.actionId, at, record);
    EvaluatedRecordSound(cfg, controls, steps, log, r', scope, at);
    if EvaluateRecord(cfg, controls, log, r', scope, at).Done? {
      EvaluatesIff(cfg, steps, log, r', scope, at);
      NoFactsVerdict(r, record.intent, at, record.basis);
    }
  }

  /** Only the operator's approval ends the waiting of an action. */
  lemma WaitingStep(cfg: Config, steps: seq<Step>, k: nat, scope: TrustedScope, r: PurchaseRequest, since: int)
    requires k < |steps| && !OperatorApproves(cfg, steps, k, scope, r.actionId)
    requires !r.recurring && r.amountMinor > LIMIT && Waiting(StateAt(cfg, steps, k, scope, r.actionId), r, since)
    ensures Waiting(StateAt(cfg, steps, k + 1, scope, r.actionId), r, since)
  {
    hide Run, EngineSound, LatestState, SyntheticControls, Waiting, EvaluateRecord, AuthorizeRefusal, TicketFor;
    hide EngineCore, RecordCore, ApproveChange;
    var s, step := Run(cfg, steps[..k]), steps[k];
    EngineSoundAt(cfg, steps, k);
    StateAfter(cfg, steps, k, scope, r.actionId);
    if Concerning(StepChange(cfg, s, step), scope, r.actionId) {
      match step
      case DoEvaluate(r', _, at) =>
        WaitingEvaluated(cfg, s.controls, steps[..k], s.engine, r', scope, at, r, since);
      case DoApprove(actionId, scope', token, at, draw) =>
        ApprovesUnderExample(cfg, steps, k, scope, r, since);
      case DoAuthorize(r', _, at, nonce) =>
        WaitingEvaluated(cfg, s.controls, steps[..k], s.engine, r', scope, at, r, since);
      case _ =>
    }
  }

  /** An approval that changes a waiting action is the operator's, under the example controls. */
  lemma ApprovesUnderExample(cfg: Config, steps: seq<Step>, k: nat, scope: TrustedScope, r: PurchaseRequest, since: int)
    requires k < |steps| && steps[k].DoApprove? && Waiting(StateAt(cfg, steps, k, scope, r.actionId), r, since)
    requires Concerning(StepChange(cfg, Run(cfg, steps[..k]), steps[k]), scope, r.actionId)
    ensures OperatorApproves(cfg, steps, k, scope, r.actionId)
  {
    hide Run, LatestState, SyntheticControls, ApproveChange, EngineCore, ApprovedRecord;
    var s, step := Run(cfg, steps[..k]), steps[k];
    RunCore(cfg, steps[..k]);
    ApproveLeaves(cfg, s.controls, s.engine, step.actionId, step.scope, step.token, step.at, step.draw);
  }

  lemma {:induction false} WaitingRun(cfg: Config, steps: seq<Step>, i: nat, n: nat, scope: TrustedScope,
                                      r: PurchaseRequest, since: int)
    requires i <= n <= |steps|
    requires !r.recurring && r.amountMinor > LIMIT && Waiting(StateAt(cfg, steps, i, scope, r.actionId), r, since)
    requires forall k :: i <= k < n ==> !OperatorApproves(cfg, steps, k, scope, r.actionId)
    ensures Waiting(StateAt(cfg, steps, n, scope, r.actionId), r, since)
    decreases n - i
  {
    hide *;
    if i < n {
      WaitingStep(cfg, steps, i, scope, r, since);
      WaitingRun(cfg, steps, i + 1, n, scope, r, since);
    }
  }

  /** Only an authorization under the example controls ends the approved state of an action. */
  lemma ApprovedStep(cfg: Config, steps: seq<Step>, k: nat, scope: TrustedScope, r: PurchaseRequest, since: int,
                     approvedAt: int, until: int)
    requires k < |steps| && !Authorizes(cfg, steps, k, scope, r.actionId)
    requires ApprovedUntil(StateAt(cfg, steps, k, scope, r.actionId), r, since, approvedAt, until)
    ensures ApprovedUntil(StateAt(cfg, steps, k + 1, scope, r.actionId), r, since, approvedAt, until)
  {
    hide Run, LatestState, EvaluateRecord, SyntheticControls, CurrentRecord, Record, ApproveChange, AuthorizeRefusal;
    hide EngineCore, RecordCore, TicketFor, Decides;
    var s, step := Run(cfg, steps[..k]), steps[k];
    StateAfter(cfg, steps, k, scope, r.actionId);
    if Concerning(StepChange(cfg, s, step), scope, r.actionId) {
      var record := LatestState(s.engine, scope, r.actionId).value;
      match step
      case DoEvaluate(r', _, at) =>
        StoredIsCurrent(s.controls, s.engine, r', scope, r.actionId, at, record);
        EvaluationFound(cfg, s.controls, s.engine, r', scope, at);
      case DoApprove(actionId, scope', token, at, draw) =>
        ApproveLeaves(cfg, s.controls, s.engine, actionId, scope', token, at, draw);
      case DoAuthorize(r', _, at, nonce) =>
        StoredIsCurrent(s.controls, s.engine, r', scope, r.actionId, at, record);
        EvaluationFound(cfg, s.controls, s.engine, r', scope, at);
      case _ =>
    }
  }

  lemma {:induction false} ApprovedRun(cfg: Config, steps: seq<Step>, i: nat, n: nat, scope: TrustedScope,
                                       r: PurchaseRequest, since: int, approvedAt: int, until: int)
    requires i <= n <= |steps|
    requires ApprovedUntil(StateAt(cfg, steps, i, scope, r.actionId), r, since, approvedAt, until)
    requires forall k :: i <= k < n ==> !Authorizes(cfg, steps, k, scope, r.actionId)
    ensures ApprovedUntil(StateAt(cfg, steps, n, scope, r.actionId), r, since, approvedAt, until)
    decreases n - i
  {
    hide *;
    if i < n {
      ApprovedStep(cfg, steps, i, scope, r, since, approvedAt, until);
      ApprovedRun(cfg, steps, i + 1, n, scope, r, since, approvedAt, until);
    }
  }

  // ---- The ticket ----------------------------------------------------------

  /** An honest large purchase gets its ticket: evaluated first, approved within 120 seconds by an operator who is not
      the agent, and authorized before those 120 seconds are over, each time by an engine with the example controls. In
      between anything else may happen, to other actions and to this one, at any clock readings, restarts with other
      controls included: while it waits, the agent may retry at will; only the operator's approval comes once, and only
      the authorization after it. */
  lemma LargePurchaseIsIssued(cfg: Config, steps: seq<Step>, i0: nat, i1: nat, i2: nat, r: PurchaseRequest,
                              scope: TrustedScope, t0: int, t1: int, draw: nat, t2: int, nonce: Text)
    returns (ticket: TicketText)
    requires i0 < i1 < i2 < |steps|
    requires UnderExample(cfg, steps, i0) && UnderExample(cfg, steps, i1) && UnderExample(cfg, steps, i2)
    requires !r.recurring && r.amountMinor > LIMIT && cfg.operatorId != AgentId(scope)
    requires StateAt(cfg, steps, i0, scope, r.actionId).None?
    requires steps[i0] == DoEvaluate(r, scope, t0)
    requires steps[i1] == DoApprove(r.actionId, scope, cfg.operatorSecret, t1, draw)
    requires steps[i2] == DoAuthorize(r, scope, t2, nonce)
    requires forall k :: i0 < k < i1 ==> !OperatorApproves(cfg, steps, k, scope, r.actionId)
    requires forall k :: i1 < k < i2 ==> !Authorizes(cfg, steps, k, scope, r.actionId)
    requires t0 <= t1 <= t2 < t0 + APPROVAL_WINDOW
    ensures Issued(cfg, steps, i2, ticket)
  {
    hide *;
    FirstEvaluationWaits(cfg, steps, i0, r, scope, t0);
    WaitingRun(cfg, steps, i0 + 1, i1, scope, r, t0);
    ApprovalIsRecorded(cfg, steps, i1, r, scope, t0, t1, draw);
    ApprovedRun(cfg, steps, i1 + 1, i2, scope, r, t0, t1, t0 + APPROVAL_WINDOW);
    ticket := ApprovedIsIssued(cfg, steps, i2, r, scope, t0, t1, t2, nonce);
  }

  lemma ApprovedIsEntitled(cfg: Config, steps: seq<Step>, scope: TrustedScope, r: PurchaseRequest, record: StateRecord,
                           since: int, approvedAt: int, until: int, at: int)
    requires RecordSound(cfg, steps, scope, r.actionId, record) && cfg.operatorId != AgentId(scope)
    requires ApprovedUntil(Some(record), r, since, approvedAt, until) && approvedAt <= at < until
    requires !r.recurring && r.amountMinor > LIMIT
    ensures Entitled(cfg, steps, record, at)
  {
    hide ApprovesRecord, AgentId, DecisionSound, Names, MakeIntent;
  }

  lemma ApprovedIsIssued(cfg: Config, steps: seq<Step>, i: nat, r: PurchaseRequest, scope: TrustedScope, since: int,
                         approvedAt: int, at: int, nonce: Text) returns (ticket: TicketText)
    requires i < |steps| && steps[i] == DoAuthorize(r, scope, at, nonce) && UnderExample(cfg, steps, i)
    requires ApprovedUntil(StateAt(cfg, steps, i, scope, r.actionId), r, since, approvedAt, since + APPROVAL_WINDOW)
    requires !r.recurring && r.amountMinor > LIMIT && cfg.operatorId != AgentId(scope)
    requires since <= approvedAt <= at < since + APPROVAL_WINDOW
    ensures Issued(cfg, steps, i, ticket)
  {
    hide Run, LatestState, EngineSound, AuthorizeStep, Entitled, RecordSound, AgentId, SyntheticControls, CurrentRecord;
    var log := Run(cfg, steps[..i]).engine;
    var record := LatestState(log, scope, r.actionId).value;
    EngineSoundAt(cfg, steps, i);
    SoundRecord(cfg, steps[..i], log, scope, r.actionId);
    StoredIsCurrent(SyntheticControls(), log, r, scope, r.actionId, at, record);
    ApprovedIsEntitled(cfg, steps[..i], scope, r, record, since, approvedAt, since + APPROVAL_WINDOW, at);
    AuthorizesIff(cfg, steps[..i], log, r, scope, at, nonce);
    ticket := AuthorizeStep(cfg, SyntheticControls(), log, r, scope, at, nonce).outcome.value;
  }

  /** A small one-time purchase of a new action gets its ticket at once, at any clock reading. */
  lemma SmallPurchaseIsIssued(cfg: Config, steps: seq<Step>, i: nat, r: PurchaseRequest, scope: TrustedScope, at: int,
                              nonce: Text) returns (ticket: TicketText)
    requires i < |steps| && steps[i] == DoAuthorize(r, scope, at, nonce) && UnderExample(cfg, steps, i)
    requires !r.recurring && r.amountMinor <= LIMIT && StateAt(cfg, steps, i, scope, r.actionId).None?
    ensures Issued(cfg, steps, i, ticket)
  {
    hide Run, LatestState, EngineSound, AuthorizeStep, MakeIntent, SyntheticControls;
    var log := Run(cfg, steps[..i]).engine;
    EngineSoundAt(cfg, steps, i);
    AuthorizesIff(cfg, steps[..i], log, r, scope, at, nonce);
    ticket := AuthorizeStep(cfg, SyntheticControls(), log, r, scope, at, nonce).outcome.value;
  }
}
