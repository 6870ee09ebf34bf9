/** What the engine's records mean under the example policy: who is entitled to a ticket, and that tickets go to no
    others. A record belongs to the example policy if the example controls saw its action first; restarts with other
    controls never touch it. */
module Entitlement {
  import opened Wrappers
  import opened Contracts
  import opened Requirements
  import opened Evaluator
  import opened Policy
  import opened Tickets
  import opened Engine
  import opened Protocol

  // ---- Records of the example policy ---------------------------------------

  /** A fact the engine made for this record when an operator approved at `at`. */
  predicate GenuineFact(cfg: Config, record: StateRecord, f: ApprovalFact, at: int) {
    && VerifiedApproval(f)
    && record.intent.intentDigest.Some? && f.intentRef == IntentRefOf(record.intent)
    && record.basis == Some(f.basisRef)
    && f.approver == OperatorActor(cfg)
    && f.lineageComplete
    && f.validFrom == at && f.validUntil <= at + APPROVAL_WINDOW
    && f.requirementId == Approval().requirementId && f.scopeDigest == ContextDigest(Approval().scope)
    && f.roles == [Approval().role] && f.approved && f.authority.digest.Some?
  }

  /** The step is an approval of the record's action by someone who knew the operator secret. */
  predicate ApprovesRecord(cfg: Config, step: Step, record: StateRecord) {
    && step.DoApprove? && step.actionId == record.request.actionId && step.scope == record.scope
    && step.token == cfg.operatorSecret
    && |record.approvals| == 1 && GenuineFact(cfg, record, record.approvals[0], step.at)
  }

  predicate ApprovalsSound(cfg: Config, steps: seq<Step>, record: StateRecord) {
    if record.approvals == [] then record.status != Approved
    else
      && !record.request.recurring && record.request.amountMinor > LIMIT
      && exists j :: 0 <= j < |steps| && ApprovesRecord(cfg, steps[j], record)
  }

  predicate DecisionSound(record: StateRecord) {
    && record.decision.Some?
    && var d := record.decision.value;
       && Decides(d, record)
       && (d.verdict == RequireApproval
           ==> !record.request.recurring && record.request.amountMinor > LIMIT
               && d.approvalRequirements == [Approval()])
  }

  /** The example controls saw the record's action first. */
  predicate Exemplary(record: StateRecord) {
    record.policyDigest == PolicyDigest(SyntheticControls())
  }

  predicate WindowSound(record: StateRecord) {
    record.reservation.Some? ==> record.reservation.value.issuedAt < record.reservation.value.expiresAt
  }

  /** A record before its newest decision is attached. */
  predicate DraftSound(cfg: Config, steps: seq<Step>, scope: TrustedScope, actionId: string, record: StateRecord) {
    && RecordCore(scope, actionId, record) && Exemplary(record)
    && ApprovalsSound(cfg, steps, record) && WindowSound(record)
  }

  predicate RecordSound(cfg: Config, steps: seq<Step>, scope: TrustedScope, actionId: string, record: StateRecord) {
    DraftSound(cfg, steps, scope, actionId, record) && DecisionSound(record)
  }

  /** Every record of the example policy is sound, and every other one is at least proper. */
  ghost predicate EngineSound(cfg: Config, steps: seq<Step>, log: Log) {
    && EngineCore(log)
    && forall scope, actionId ::
         LatestState(log, scope, actionId).Some? && Exemplary(LatestState(log, scope, actionId).value)
         ==> RecordSound(cfg, steps, scope, actionId, LatestState(log, scope, actionId).value)
  }

  lemma SoundRecord(cfg: Config, steps: seq<Step>, log: Log, scope: TrustedScope, actionId: string)
    requires EngineSound(cfg, steps, log)
    requires LatestState(log, scope, actionId).Some? && Exemplary(LatestState(log, scope, actionId).value)
    ensures RecordSound(cfg, steps, scope, actionId, LatestState(log, scope, actionId).value)
  {
    hide LatestState, RecordSound, EngineCore, Exemplary;
  }

  lemma SoundIsCore(cfg: Config, steps: seq<Step>, log: Log)
    requires EngineSound(cfg, steps, log)
    ensures EngineCore(log)
  {
    hide EngineCore, RecordSound, LatestState;
  }

  lemma SoundFields(cfg: Config, steps: seq<Step>, scope: TrustedScope, actionId: string, record: StateRecord)
    requires RecordSound(cfg, steps, scope, actionId, record)
    ensures record.decision.Some? && record.decision.value.digest.Some?
    ensures record.intent.actor.actorId == AgentId(scope)
    ensures record.request.actionId == actionId && record.scope == scope
    ensures record.requestDigest == RequestDigest(record.request)
  {
    hide ApprovalsSound, WindowSound, Exemplary;
  }

  // ---- Soundness of what evaluation and approval record --------------------

  lemma CurrentRecordSound(cfg: Config, controls: seq<Control>, steps: seq<Step>, log: Log, r: PurchaseRequest,
                           scope: TrustedScope, at: int)
    requires EngineSound(cfg, steps, log) && Exemplary(CurrentRecord(controls, log, r, scope, at))
    ensures DraftSound(cfg, steps, scope, r.actionId, CurrentRecord(controls, log, r, scope, at))
  {
    hide EngineCore, RecordCore, ApprovesRecord, LatestState, Exemplary;
    if LatestState(log, scope, r.actionId).Some? {
      SoundRecord(cfg, steps, log, scope, r.actionId);
    } else {
      FoundCore(controls, log, r, scope, at);
    }
  }

  lemma ApprovalsVerified(cfg: Config, steps: seq<Step>, record: StateRecord)
    requires ApprovalsSound(cfg, steps, record)
    ensures forall k :: 0 <= k < |record.approvals| ==> VerifiedApproval(record.approvals[k])
  {
  }

  /** What the example controls decide about a sound record. */
  lemma DecidedRecord(cfg: Config, steps: seq<Step>, scope: TrustedScope, actionId: string, record: StateRecord,
                      at: int)
    requires DraftSound(cfg, steps, scope, actionId, record)
    ensures DecisionFor(cfg, SyntheticControls(), record, at).Ok?
    ensures var d := DecisionFor(cfg, SyntheticControls(), record, at).value;
            && DecisionSound(record.(decision := Some(d)))
            && d.verdict == ExpectedVerdict(record.request, record.intent, at,
                                            EngineFacts(record.basis, record.approvals))
            && (d.verdict != Block ==> d.route.kind == Continue)
            && d.evaluatedAt == at
  {
    hide MakeIntent, Evaluate, SomeDependent, Countable, SyntheticControls, ApprovesRecord;
    ApprovalsVerified(cfg, steps, record);
    SyntheticDecision(record.request, scope, record.firstSeen, at, record.basis, record.approvals, cfg.canon);
    DecisionBinds(EngineEvaluator(cfg.canon), record.intent, SnapshotOf(SyntheticControls(), at),
                  EngineFacts(record.basis, record.approvals));
  }

  lemma DecisionKeepsDraft(cfg: Config, steps: seq<Step>, scope: TrustedScope, actionId: string, record: StateRecord,
                           d: Decision)
    requires DraftSound(cfg, steps, scope, actionId, record) && Decides(d, record)
    ensures DraftSound(cfg, steps, scope, actionId, record.(decision := Some(d)))
  {
    hide MakeIntent, GenuineFact;
    var decided := record.(decision := Some(d));
    if record.approvals != [] {
      var j :| 0 <= j < |steps| && ApprovesRecord(cfg, steps[j], record);
      assert ApprovesRecord(cfg, steps[j], decided) by {
        FactIgnoresDecision(cfg, record, d, record.approvals[0], steps[j].at);
      }
    }
  }

  lemma FactIgnoresDecision(cfg: Config, record: StateRecord, d: Decision, f: ApprovalFact, at: int)
    ensures GenuineFact(cfg, record.(decision := Some(d)), f, at) == GenuineFact(cfg, record, f, at)
  {
  }

  /** Evaluating an action of the example policy leaves a sound record; it is never evaluated under other controls, and
      never fails under these. */
  lemma EvaluatedRecordSound(cfg: Config, controls: seq<Control>, steps: seq<Step>, log: Log, r: PurchaseRequest,
                             scope: TrustedScope, at: int)
    requires EngineSound(cfg, steps, log) && Exemplary(CurrentRecord(controls, log, r, scope, at))
    ensures var o := EvaluateRecord(cfg, controls, log, r, scope, at);
            && !o.Crashed?
            && (o.Done?
                ==> controls == SyntheticControls() && RecordSound(cfg, steps, scope, r.actionId, o.value.record))
  {
    hide MakeIntent, DecisionFor, ApprovalsSound, DecisionSound, LatestState, SyntheticControls, RecordCore;
    hide Record, EngineSound, WindowSound, CurrentRecord, RequestDigest;
    var record := CurrentRecord(controls, log, r, scope, at);
    CurrentRecordSound(cfg, controls, steps, log, r, scope, at);
    DecidedRecord(cfg, steps, scope, r.actionId, record, at);
    DecisionDecides(cfg, controls, record, at);
    if StaleReason(controls, record, r, at).None? {
      DecisionKeepsDraft(cfg, steps, scope, r.actionId, record, DecisionFor(cfg, controls, record, at).value);
    }
  }

  /** More history never makes a sound record unsound. */
  lemma LongerHistory(cfg: Config, steps: seq<Step>, step: Step, scope: TrustedScope, actionId: string,
                      record: StateRecord)
    requires RecordSound(cfg, steps, scope, actionId, record)
    ensures RecordSound(cfg, steps + [step], scope, actionId, record)
  {
    hide RecordCore, ApprovesRecord, DecisionSound, WindowSound, Exemplary;
    if record.approvals != [] {
      var j :| 0 <= j < |steps| && ApprovesRecord(cfg, steps[j], record);
      assert (steps + [step])[j] == steps[j];
    }
  }

  /** The record an approval leaves is sound: it carries one genuine fact, made by this very step. */
  lemma ApprovedRecordSound(cfg: Config, controls: seq<Control>, steps: seq<Step>, record: StateRecord,
                            scope: TrustedScope, actionId: string, token: string, at: int, draw: nat)
    requires RecordSound(cfg, steps, scope, actionId, record)
    requires ApprovalBasis(cfg, controls, Some(record), token, at).Done?
    ensures RecordSound(cfg, steps + [DoApprove(actionId, scope, token, at, draw)], scope, actionId,
                        ApprovedRecord(cfg, record, at, draw))
  {
    hide MakeIntent, OperatorFact, GenuineFact, TicketShape, SyntheticControls;
    var step := DoApprove(actionId, scope, token, at, draw);
    var basis := record.decision.value;
    var approved := ApprovedRecord(cfg, record, at, draw);
    var rs := basis.approvalRequirements;
    assert rs == [Approval()] && rs[1..] == [];
    var f := OperatorFact(cfg, basis, Approval(), at, draw);
    FactsUnfold(cfg, basis, rs, at, draw);
    FactsUnfold(cfg, basis, rs[1..], at, draw + 1);
    assert approved.approvals == [f];
    FactIsGenuine(cfg, record, at, draw);
    var history := steps + [step];
    assert history[|steps|] == step;
    assert ApprovesRecord(cfg, history[|steps|], approved);
  }

  lemma FactIsGenuine(cfg: Config, record: StateRecord, at: int, draw: nat)
    requires DecisionSound(record)
    ensures var basis := record.decision.value;
            var f := OperatorFact(cfg, basis, Approval(), at, draw);
            forall facts :: GenuineFact(cfg, record.(approvals := facts, basis := Some(DecisionRefOf(basis)),
                                                     status := Approved), f, at)
  {
  }

  /** The one fact an accepted approval records is valid at once, until the earlier of its two limits. */
  lemma ApprovedFact(cfg: Config, steps: seq<Step>, record: StateRecord, scope: TrustedScope, actionId: string, at: int,
                     draw: nat)
    requires RecordSound(cfg, steps, scope, actionId, record) && record.decision.value.verdict == RequireApproval
    requires record.decision.value.digest.Some? && at < record.decision.value.expiresAt
    ensures var fs := ApprovedRecord(cfg, record, at, draw).approvals;
            && |fs| == 1 && fs[0].validFrom == at
            && fs[0].validUntil == Min(record.decision.value.expiresAt, at + APPROVAL_WINDOW)
            && at < fs[0].validUntil
  {
    hide DraftSound;
    var basis := record.decision.value;
    assert basis.approvalRequirements == [Approval()] && [Approval()][1..] == [];
    FactsUnfold(cfg, basis, [Approval()], at, draw);
    FactsUnfold(cfg, basis, [], at, draw + 1);
  }

  /** After an approval is recorded the log is as sound as before. */
  lemma ApprovalRecorded(cfg: Config, controls: seq<Control>, steps: seq<Step>, log: Log, actionId: string,
                         scope: TrustedScope, token: string, at: int, draw: nat)
    requires EngineSound(cfg, steps, log)
    requires ApprovalBasis(cfg, controls, LatestState(log, scope, actionId), token, at).Done?
    requires Exemplary(LatestState(log, scope, actionId).value)
    ensures var history := steps + [DoApprove(actionId, scope, token, at, draw)];
            var approved := ApprovedRecord(cfg, LatestState(log, scope, actionId).value, at, draw);
            && RecordSound(cfg, history, scope, actionId, approved)
            && EngineSound(cfg, history, Record(log, scope, actionId, approved))
            && CurrentRecord(controls, Record(log, scope, actionId, approved), approved.request, scope, at) == approved
  {
    hide LatestState, ApprovedRecord, Record, ApprovalBasis, EngineSound, RecordSound, Exemplary, Changed, EngineCore;
    hide RecordCore, AgentId;
    var record := LatestState(log, scope, actionId).value;
    var approved := ApprovedRecord(cfg, record, at, draw);
    SoundRecord(cfg, steps, log, scope, actionId);
    SoundIsCore(cfg, steps, log);
    ApprovedRecordSound(cfg, controls, steps, record, scope, actionId, token, at, draw);
    ApprovedFrom(cfg, controls, log, actionId, scope, token, at, draw);
    ChangeKeepsSound(cfg, steps, DoApprove(actionId, scope, token, at, draw), log,
                     Record(log, scope, actionId, approved), Some(Change(scope, actionId, approved)));
  }

  /** A change that leaves a sound record, if one of the example policy, keeps the log sound. */
  lemma ChangeKeepsSound(cfg: Config, steps: seq<Step>, step: Step, log: Log, log': Log, change: Option<Change>)
    requires EngineSound(cfg, steps, log) && Changed(log, log', change) && Proper(log, change)
    requires change.Some? && Exemplary(change.value.record)
             ==> RecordSound(cfg, steps + [step], change.value.scope, change.value.actionId, change.value.record)
    ensures EngineSound(cfg, steps + [step], log')
  {
    hide LatestState, RecordSound, RecordCore, Exemplary, EngineCore, Proper;
    ChangeKeepsCore(log, log', change);
    forall scope: TrustedScope, actionId: string |
        LatestState(log', scope, actionId).Some? && Exemplary(LatestState(log', scope, actionId).value)
      ensures RecordSound(cfg, steps + [step], scope, actionId, LatestState(log', scope, actionId).value)
    {
      if !Concerning(change, scope, actionId) {
        LongerHistory(cfg, steps, step, scope, actionId, LatestState(log, scope, actionId).value);
      }
    }
  }

  // ---- Entitlement ---------------------------------------------------------

  /** An operator other than the agent approved this very action, and the fact still counts at `at`. */
  predicate OperatorApproved(cfg: Config, steps: seq<Step>, record: StateRecord, at: int) {
    && cfg.operatorId != AgentId(record.scope)
    && |record.approvals| == 1 && record.approvals[0].validFrom <= at < record.approvals[0].validUntil
    && exists j :: 0 <= j < |steps| && ApprovesRecord(cfg, steps[j], record)
  }

  /** What entitles a record to a ticket at `at`. */
  predicate Entitled(cfg: Config, steps: seq<Step>, record: StateRecord, at: int) {
    && !record.request.recurring
    && (record.request.amountMinor <= LIMIT || OperatorApproved(cfg, steps, record, at))
  }

  lemma OneMatching(f: ApprovalFact, s: Situation)
    ensures Matching([f], Approval(), s) == if ApprovalMatches(Approval(), f, s) then [f] else []
    ensures Matching([], Approval(), s) == []
  {
    assert [f][1..] == [];
  }

  lemma OneMatchingNone(s: Situation)
    ensures Matching([], Approval(), s) == []
  {
  }

  lemma IndependentOperator(cfg: Config, record: StateRecord, scope: TrustedScope, f: ApprovalFact, at: int)
    requires record.intent.actor.actorId == AgentId(scope) && GenuineFact(cfg, record, f, at)
    requires !AnyDependent([f], Approval(), record.intent)
    ensures cfg.operatorId != AgentId(scope)
  {
    hide GenuineFact, AgentId;
    assert f.approver == OperatorActor(cfg) by { FactFields(cfg, record, f, at); }
    assert [f][0] == f;
    assert !IndependenceFails(Approval(), f, record.intent);
    assert AgentId(scope) in LineageIds(record.intent.actor);
    assert cfg.operatorId in LineageIds(f.approver);
    assert cfg.operatorId !in LineageIds(record.intent.actor) * LineageIds(f.approver);
  }

  lemma FactFields(cfg: Config, record: StateRecord, f: ApprovalFact, at: int)
    requires GenuineFact(cfg, record, f, at)
    ensures f.approver == OperatorActor(cfg) && f.lineageComplete
    ensures f.validFrom == at && f.validUntil <= at + APPROVAL_WINDOW
  {
  }

  /** A record that evaluates to a permissive decision is entitled to a ticket. */
  lemma AllowedIsEntitled(cfg: Config, steps: seq<Step>, scope: TrustedScope, actionId: string, record: StateRecord,
                          at: int)
    requires DraftSound(cfg, steps, scope, actionId, record)
    requires Permissive(ExpectedVerdict(record.request, record.intent, at, EngineFacts(record.basis, record.approvals)))
    ensures Entitled(cfg, steps, record, at)
    ensures record.request.amountMinor <= LIMIT ==> record.approvals == []
  {
    hide GenuineFact, SyntheticControls, AgentId, Matching, AnyDependent, MakeIntent;
    var facts := EngineFacts(record.basis, record.approvals);
    if record.request.amountMinor > LIMIT {
      var s := Situation(record.intent, SnapshotOf(SyntheticControls(), at), facts, {});
      if record.approvals == [] {
        OneMatchingNone(s);
      } else {
        var j :| 0 <= j < |steps| && ApprovesRecord(cfg, steps[j], record);
        var f := record.approvals[0];
        assert record.approvals == [f];
        OneMatching(f, s);
        CoreIdentity(scope, actionId, record);
        IndependentOperator(cfg, record, scope, f, steps[j].at);
      }
    }
  }

  lemma FactCounts(cfg: Config, record: StateRecord, f: ApprovalFact, approvedAt: int, at: int)
    requires GenuineFact(cfg, record, f, approvedAt) && f.validFrom <= at < f.validUntil
    ensures ApprovalMatches(Approval(), f, Situation(record.intent, SnapshotOf(SyntheticControls(), at),
                                                     EngineFacts(record.basis, record.approvals), {}))
  {
    hide SyntheticControls, ContextDigest;
  }

  lemma OperatorIsIndependent(cfg: Config, record: StateRecord, scope: TrustedScope, f: ApprovalFact, approvedAt: int)
    requires record.intent == MakeIntent(record.request, scope, record.firstSeen)
    requires GenuineFact(cfg, record, f, approvedAt) && cfg.operatorId != AgentId(scope)
    ensures !IndependenceFails(Approval(), f, record.intent)
  {
    hide MakeIntent, AgentId, GenuineFact, ContextOf;
    IntentContext(record.request, scope, record.firstSeen);
    FactFields(cfg, record, f, approvedAt);
    assert LineageIds(record.intent.actor) == {AgentId(scope)};
    assert LineageIds(f.approver) == {cfg.operatorId};
  }

  lemma EntitledIsPermissive(cfg: Config, steps: seq<Step>, scope: TrustedScope, actionId: string, record: StateRecord,
                             at: int)
    requires DraftSound(cfg, steps, scope, actionId, record) && Entitled(cfg, steps, record, at)
    ensures Permissive(ExpectedVerdict(record.request, record.intent, at, EngineFacts(record.basis, record.approvals)))
  {
    hide GenuineFact, SyntheticControls, AgentId, MakeIntent, Matching, ApprovalMatches;
    hide IndependenceFails;
    if record.request.amountMinor > LIMIT {
      var j :| 0 <= j < |steps| && ApprovesRecord(cfg, steps[j], record);
      var f := record.approvals[0];
      assert record.approvals == [f];
      var s := Situation(record.intent, SnapshotOf(SyntheticControls(), at),
                         EngineFacts(record.basis, record.approvals), {});
      FactCounts(cfg, record, f, steps[j].at, at);
      OneMatching(f, s);
      OperatorIsIndependent(cfg, record, scope, f, steps[j].at);
    }
  }

  /** The example policy permits a sound record exactly if it is entitled. */
  lemma PermissiveIffEntitled(cfg: Config, steps: seq<Step>, scope: TrustedScope, actionId: string, record: StateRecord,
                              at: int)
    requires DraftSound(cfg, steps, scope, actionId, record)
    ensures Permissive(ExpectedVerdict(record.request, record.intent, at, EngineFacts(record.basis, record.approvals)))
            <==> Entitled(cfg, steps, record, at)
  {
    hide ExpectedVerdict, Entitled, DraftSound;
    if Entitled(cfg, steps, record, at) {
      EntitledIsPermissive(cfg, steps, scope, actionId, record, at);
    } else if Permissive(ExpectedVerdict(record.request, record.intent, at,
                                         EngineFacts(record.basis, record.approvals))) {
      AllowedIsEntitled(cfg, steps, scope, actionId, record, at);
    }
  }

  // ---- Issuing a ticket ----------------------------------------------------

  /** The record a ticket's issue leaves is sound and entitled, and the ticket ends after it starts. */
  lemma ReservedRecordSound(cfg: Config, steps: seq<Step>, log: Log, r: PurchaseRequest, scope: TrustedScope, at: int,
                            nonce: Text)
    requires EngineSound(cfg, steps, log)
    requires AuthorizeStep(cfg, SyntheticControls(), log, r, scope, at, nonce).outcome.Done?
    ensures var change := AuthorizeChange(cfg, SyntheticControls(), log, r, scope, at, nonce);
            && change.Some? && RecordSound(cfg, steps, scope, r.actionId, change.value.record)
            && Entitled(cfg, steps, change.value.record, at)
            && change.value.record.reservation.Some? && at < change.value.record.reservation.value.expiresAt
  {
    hide EvaluateRecord, LatestState, SyntheticControls, Record, TicketEnd, EngineSound, CurrentRecord, DraftSound;
    hide DecisionFor, RecordDenial, Entitled, DecisionSound, RecordCore, ExpectedVerdict, TicketFor;
    var controls := SyntheticControls();
    var o := EvaluateRecord(cfg, controls, log, r, scope, at);
    var found := CurrentRecord(controls, log, r, scope, at);
    SoundIsCore(cfg, steps, log);
    EvaluationFound(cfg, controls, log, r, scope, at);
    EvaluatedRecordSound(cfg, controls, steps, log, r, scope, at);
    CurrentRecordSound(cfg, controls, steps, log, r, scope, at);
    EvaluatedDecision(cfg, controls, log, r, scope, at);
    DecidedRecord(cfg, steps, scope, r.actionId, found, at);
    AllowedIsEntitled(cfg, steps, scope, r.actionId, found, at);
    var e := o.value;
    SoundReservation(cfg, controls, steps, found, r, scope, at, nonce, e);
  }

  lemma EvaluatedDecision(cfg: Config, controls: seq<Control>, log: Log, r: PurchaseRequest, scope: TrustedScope,
                          at: int)
    ensures var o := EvaluateRecord(cfg, controls, log, r, scope, at);
            o.Done?
            ==> DecisionFor(cfg, controls, CurrentRecord(controls, log, r, scope, at), at) == Ok(o.value.decision)
  {
    hide DecisionFor, CurrentRecord, StaleReason, Record;
  }

  lemma SoundReservation(cfg: Config, controls: seq<Control>, steps: seq<Step>, found: StateRecord, r: PurchaseRequest,
                         scope: TrustedScope, at: int, nonce: Text, e: Evaluated)
    requires EvaluatedFrom(cfg, controls, found, r, at, e) && RecordSound(cfg, steps, scope, r.actionId, e.record)
    requires Entitled(cfg, steps, found, at) && (found.request.amountMinor <= LIMIT ==> found.approvals == [])
    requires e.decision.evaluatedAt == at && AuthorizeRefusal(e).None? && e.decision.digest.Some?
    ensures var reserved := ReservedRecord(e.record, TicketFor(controls, e.record, e.decision, r, scope, at, nonce));
            && RecordSound(cfg, steps, scope, r.actionId, reserved) && Entitled(cfg, steps, reserved, at)
            && at < reserved.reservation.value.expiresAt
  {
    hide RecordCore, TicketEnd, GenuineFact, SyntheticControls, AgentId, Allowed, DecisionFor;
    var p := TicketFor(controls, e.record, e.decision, r, scope, at, nonce);
    ReservedFrom(cfg, controls, found, r, scope, at, nonce, e);
    TicketWindow(e.record, e.decision, at);
    ReservingKeepsHistory(cfg, steps, found, e.decision, p, at);
  }

  lemma ReservingKeepsHistory(cfg: Config, steps: seq<Step>, record: StateRecord, d: Decision, p: TicketPayload,
                              at: int)
    requires Entitled(cfg, steps, record, at)
    requires ApprovalsSound(cfg, steps, record.(decision := Some(d)))
    ensures var reserved := ReservedRecord(record.(decision := Some(d)), p);
            && ApprovalsSound(cfg, steps, reserved) && Entitled(cfg, steps, reserved, at)
  {
    hide GenuineFact;
    var decided := record.(decision := Some(d));
    var reserved := ReservedRecord(decided, p);
    forall j | 0 <= j < |steps| && ApprovesRecord(cfg, steps[j], record)
      ensures ApprovesRecord(cfg, steps[j], reserved)
    {
      FactIgnoresReservation(cfg, record, d, p, record.approvals[0], steps[j].at);
    }
    forall j | 0 <= j < |steps| && ApprovesRecord(cfg, steps[j], decided)
      ensures ApprovesRecord(cfg, steps[j], reserved)
    {
      FactIgnoresReservation(cfg, decided, d, p, record.approvals[0], steps[j].at);
    }
  }

  lemma FactIgnoresReservation(cfg: Config, record: StateRecord, d: Decision, p: TicketPayload, f: ApprovalFact,
                               at: int)
    ensures GenuineFact(cfg, ReservedRecord(record.(decision := Some(d)), p), f, at) == GenuineFact(cfg, record, f, at)
  {
  }

  // ---- Every step and every run --------------------------------------------

  /** What a step leaves of an action of the example policy is sound. */
  lemma StepLeavesSound(cfg: Config, steps: seq<Step>, s: System, step: Step)
    requires EngineSound(cfg, steps, s.engine)
    requires var change := StepChange(cfg, s, step); change.Some? && Exemplary(change.value.record)
    ensures var change := StepChange(cfg, s, step).value;
            RecordSound(cfg, steps + [step], change.scope, change.actionId, change.record)
  {
    hide EngineSound, RecordSound, EvaluateChange, ApproveChange, AuthorizeChange, Exemplary;
    match step
    case DoEvaluate(r, scope, at) => EvaluateLeavesSound(cfg, steps, step, s, r, scope, at);
    case DoApprove(actionId, scope, token, at, draw) =>
      ApproveLeavesSound(cfg, steps, s, actionId, scope, token, at, draw);
    case DoAuthorize(r, scope, at, nonce) => AuthorizeLeavesSound(cfg, steps, step, s, r, scope, at, nonce);
    case _ =>
  }

  lemma EvaluateLeavesSound(cfg: Config, steps: seq<Step>, step: Step, s: System, r: PurchaseRequest,
                            scope: TrustedScope, at: int)
    requires EngineSound(cfg, steps, s.engine)
    requires var change := EvaluateChange(cfg, s.controls, s.engine, r, scope, at);
             change.Some? && Exemplary(change.value.record)
    ensures var change := EvaluateChange(cfg, s.controls, s.engine, r, scope, at).value;
            RecordSound(cfg, steps + [step], change.scope, change.actionId, change.record)
  {
    hide EngineSound, RecordSound, EvaluateRecord, CurrentRecord, LatestState, Record, RecordCore;
    SoundIsCore(cfg, steps, s.engine);
    EvaluationFound(cfg, s.controls, s.engine, r, scope, at);
    EvaluatedRecordSound(cfg, s.controls, steps, s.engine, r, scope, at);
    LongerHistory(cfg, steps, step, scope, r.actionId,
                  EvaluateRecord(cfg, s.controls, s.engine, r, scope, at).value.record);
  }

  lemma AuthorizeLeavesSound(cfg: Config, steps: seq<Step>, step: Step, s: System, r: PurchaseRequest,
                             scope: TrustedScope, at: int, nonce: Text)
    requires EngineSound(cfg, steps, s.engine)
    requires var change := AuthorizeChange(cfg, s.controls, s.engine, r, scope, at, nonce);
             change.Some? && Exemplary(change.value.record)
    ensures var change := AuthorizeChange(cfg, s.controls, s.engine, r, scope, at, nonce).value;
            RecordSound(cfg, steps + [step], change.scope, change.actionId, change.record)
  {
    hide EngineSound, RecordSound, EvaluateRecord, CurrentRecord, LatestState, Record, RecordCore, TicketFor, Allowed;
    hide SyntheticControls, Entitled, RecordDenial;
    SoundIsCore(cfg, steps, s.engine);
    EvaluationFound(cfg, s.controls, s.engine, r, scope, at);
    var e := EvaluateRecord(cfg, s.controls, s.engine, r, scope, at).value;
    var change := AuthorizeChange(cfg, s.controls, s.engine, r, scope, at, nonce).value;
    assert Exemplary(CurrentRecord(s.controls, s.engine, r, scope, at));
    EvaluatedRecordSound(cfg, s.controls, steps, s.engine, r, scope, at);
    if AuthorizeRefusal(e).None? {
      ReservedRecordSound(cfg, steps, s.engine, r, scope, at, nonce);
    }
    LongerHistory(cfg, steps, step, scope, r.actionId, change.record);
  }

  lemma ApproveLeavesSound(cfg: Config, steps: seq<Step>, s: System, actionId: string, scope: TrustedScope,
                           token: string, at: int, draw: nat)
    requires EngineSound(cfg, steps, s.engine)
    requires var change := ApproveChange(cfg, s.controls, s.engine, actionId, scope, token, at, draw);
             change.Some? && Exemplary(change.value.record)
    ensures var change := ApproveChange(cfg, s.controls, s.engine, actionId, scope, token, at, draw).value;
            RecordSound(cfg, steps + [DoApprove(actionId, scope, token, at, draw)], change.scope, change.actionId,
                        change.record)
  {
    hide EngineSound, RecordSound, EvaluateRecord, LatestState, Record, RecordCore, ApprovalBasis, ApprovedRecord;
    hide CurrentRecord, Exemplary, Changed, Proper, EngineCore, AgentId;
    SoundIsCore(cfg, steps, s.engine);
    var record := LatestState(s.engine, scope, actionId).value;
    var approved := ApprovedRecord(cfg, record, at, draw);
    var recorded := Record(s.engine, scope, actionId, approved);
    ApprovedFrom(cfg, s.controls, s.engine, actionId, scope, token, at, draw);
    var e := EvaluateRecord(cfg, s.controls, recorded, approved.request, scope, at);
    StoredIsCurrent(s.controls, recorded, approved.request, scope, actionId, at, approved);
    EvaluationFound(cfg, s.controls, recorded, approved.request, scope, at);
    ApprovedPolicy(cfg, record, at, draw);
    assert Exemplary(approved) && Exemplary(record) by {
      if e.Done? { SamePolicy(cfg, s.controls, approved, approved.request, at, e.value); }
      SameDigest(record, approved);
    }
    ApprovalRecorded(cfg, s.controls, steps, s.engine, actionId, scope, token, at, draw);
    EvaluatedRecordSound(cfg, s.controls, steps + [DoApprove(actionId, scope, token, at, draw)], recorded,
                         approved.request, scope, at);
  }

  lemma SamePolicy(cfg: Config, controls: seq<Control>, found: StateRecord, r: PurchaseRequest, at: int, e: Evaluated)
    requires EvaluatedFrom(cfg, controls, found, r, at, e)
    ensures Exemplary(e.record) == Exemplary(found)
  {
    hide SyntheticControls;
  }

  lemma SameDigest(record: StateRecord, record': StateRecord)
    requires record.policyDigest == record'.policyDigest
    ensures Exemplary(record) == Exemplary(record')
  {
    hide SyntheticControls;
  }

  lemma ApprovedPolicy(cfg: Config, record: StateRecord, at: int, draw: nat)
    requires record.decision.Some? && record.decision.value.digest.Some?
    ensures var approved := ApprovedRecord(cfg, record, at, draw);
            && approved.policyDigest == record.policyDigest && approved.firstSeen == record.firstSeen
            && approved.request == record.request && approved.status == Approved && approved.scope == record.scope
  {
    hide OperatorFacts;
  }

  lemma StoredIsCurrent(controls: seq<Control>, log: Log, r: PurchaseRequest, scope: TrustedScope, actionId: string,
                        at: int, record: StateRecord)
    requires LatestState(log, scope, actionId) == Some(record) && r.actionId == actionId
    ensures CurrentRecord(controls, log, r, scope, at) == record
  {
    hide LatestState, NewRecord;
  }

  /** After any steps whatever, restarts included, the engine's log is sound. */
  lemma {:induction false} RunEngineSound(cfg: Config, steps: seq<Step>)
    ensures EngineSound(cfg, steps, Run(cfg, steps).engine)
  {
    hide Next, RecordSound, Proper, StepChange, Changed, EngineCore, Exemplary;
    if steps == [] {
      RunCore(cfg, []);
    } else {
      var n := |steps| - 1;
      var s, step := Run(cfg, steps[..n]), steps[n];
      RunEngineSound(cfg, steps[..n]);
      StepChanges(cfg, s, step);
      var change := StepChange(cfg, s, step);
      if change.Some? && Exemplary(change.value.record) {
        StepLeavesSound(cfg, steps[..n], s, step);
      }
      ChangeKeepsSound(cfg, steps[..n], step, s.engine, Next(cfg, s, step).engine, change);
      assert steps == steps[..n] + [step];
    }
  }

  lemma EngineSoundAt(cfg: Config, steps: seq<Step>, i: nat)
    requires i <= |steps|
    ensures EngineSound(cfg, steps[..i], Run(cfg, steps[..i]).engine)
  {
    hide EngineSound, Run;
    RunEngineSound(cfg, steps[..i]);
  }
}
