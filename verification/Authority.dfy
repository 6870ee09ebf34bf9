/** Where the authority for a ticket comes from: approvals from operators, and under the example policy tickets from
    small requests or from approvals. */
module Authority {
  import opened Wrappers
  import opened Contracts
  import opened Evaluator
  import opened Policy
  import opened Tickets
  import opened Engine
  import opened Protocol
  import opened Safety
  import opened Entitlement

  // ---- Approvals come from operators ---------------------------------------

  /** The j-th step is the operator's approval of this very request, which waited for it under the controls in force,
      and `fs` are the facts it made: one for each approval requirement of the decision it approved. */
  predicate ApprovedBy(cfg: Config, steps: seq<Step>, j: nat, r: PurchaseRequest, scope: TrustedScope,
                       fs: seq<ApprovalFact>)
  {
    && j < |steps| && steps[j].DoApprove? && steps[j].actionId == r.actionId && steps[j].scope == scope
    && steps[j].token == cfg.operatorSecret
    && var before, after := StateAt(cfg, steps, j, scope, r.actionId), StateAt(cfg, steps, j + 1, scope, r.actionId);
       && before.Some? && before.value.request == r && before.value.status == Pending && before.value.approvals == []
       && before.value.policyDigest == PolicyDigest(Run(cfg, steps[..j]).controls)
       && before.value.decision.Some? && before.value.decision.value.digest.Some?
       && before.value.decision.value.verdict == RequireApproval && steps[j].at < before.value.decision.value.expiresAt
       && after.Some? && after.value.request == r && after.value.approvals == fs
       && fs == ApprovedRecord(cfg, before.value, steps[j].at, steps[j].draw).approvals
  }

  /** What an approval step leaves, if it leaves anything: an action that waited, with the operator's facts. */
  predicate ApprovalMakes(cfg: Config, controls: seq<Control>, before: Option<StateRecord>, record: StateRecord,
                          token: string, at: int, draw: nat)
  {
    && token == cfg.operatorSecret && before.Some? && before.value.status == Pending && before.value.approvals == []
    && before.value.policyDigest == PolicyDigest(controls)
    && before.value.decision.Some? && before.value.decision.value.digest.Some?
    && before.value.decision.value.verdict == RequireApproval && at < before.value.decision.value.expiresAt
    && record.approvals == ApprovedRecord(cfg, before.value, at, draw).approvals
  }

  lemma BasisFields(cfg: Config, controls: seq<Control>, stored: Option<StateRecord>, token: string, at: int)
    requires ApprovalBasis(cfg, controls, stored, token, at).Done?
    ensures token == cfg.operatorSecret && stored.value.status == Pending && stored.value.approvals == []
    ensures stored.value.policyDigest == PolicyDigest(controls)
    ensures stored.value.decision.value.verdict == RequireApproval && at < stored.value.decision.value.expiresAt
  {
  }

  lemma ApproveLeaves(cfg: Config, controls: seq<Control>, log: Log, actionId: string, scope: TrustedScope,
                      token: string, at: int, draw: nat)
    requires EngineCore(log) && ApproveChange(cfg, controls, log, actionId, scope, token, at, draw).Some?
    ensures var change := ApproveChange(cfg, controls, log, actionId, scope, token, at, draw).value;
            && change.scope == scope && change.actionId == actionId
            && ApprovalMakes(cfg, controls, LatestState(log, scope, actionId), change.record, token, at, draw)
  {
    hide EvaluateRecord, LatestState, EngineCore, Record, RecordCore, ApprovalBasis, ApprovedRecord, CurrentRecord;
    hide Changed, AgentId, Decides, PolicyDigest;
    var stored := LatestState(log, scope, actionId);
    BasisFields(cfg, controls, stored, token, at);
    ApprovedFrom(cfg, controls, log, actionId, scope, token, at, draw);
    var approved := ApprovedRecord(cfg, stored.value, at, draw);
    var recorded := Record(log, scope, actionId, approved);
    StoredIsCurrent(controls, recorded, approved.request, scope, actionId, at, approved);
    EvaluationFound(cfg, controls, recorded, approved.request, scope, at);
  }

  predicate SameApprovals(before: Option<StateRecord>, after: Option<StateRecord>) {
    && before.Some? && after.Some? && after.value.approvals == before.value.approvals
    && after.value.request == before.value.request
  }

  lemma EvaluateKeepsApprovals(cfg: Config, controls: seq<Control>, log: Log, r: PurchaseRequest, scope: TrustedScope,
                               at: int)
    requires EngineCore(log) && EvaluateChange(cfg, controls, log, r, scope, at).Some?
    ensures var record := EvaluateChange(cfg, controls, log, r, scope, at).value.record;
            var stored := LatestState(log, scope, r.actionId);
            record.approvals == if stored.Some? then stored.value.approvals else []
  {
    hide EvaluateRecord, LatestState, EngineCore, Record, RecordCore, CurrentRecord, Decides, PolicyDigest;
    EvaluationFound(cfg, controls, log, r, scope, at);
    FoundIsSuccessor(controls, log, r, scope, at);
  }

  /** A step keeps an action's approvals, or is the operator's approval that makes them. */
  lemma StepApprovals(cfg: Config, steps: seq<Step>, k: nat, scope: TrustedScope, actionId: string)
    requires k < |steps|
    requires var after := StateAt(cfg, steps, k + 1, scope, actionId); after.Some? && after.value.approvals != []
    ensures var before, after := StateAt(cfg, steps, k, scope, actionId), StateAt(cfg, steps, k + 1, scope, actionId);
            || SameApprovals(before, after)
            || ApprovedBy(cfg, steps, k, after.value.request, scope, after.value.approvals)
  {
    hide EngineCore, LatestState, Run, RecordCore, PolicyDigest, ApprovedRecord, Successor;
    hide EvaluateChange, ApproveChange, AuthorizeChange, AuthorizeStep, IssuedRecord;
    var s, step := Run(cfg, steps[..k]), steps[k];
    StateAfter(cfg, steps, k, scope, actionId);
    var change := StepChange(cfg, s, step);
    if Concerning(change, scope, actionId) {
      match step
      case DoEvaluate(r, scope', at) =>
        EvaluateKeepsApprovals(cfg, s.controls, s.engine, r, scope', at);
        EvaluateConcerns(cfg, s.controls, s.engine, r, scope', at);
        KeptBySuccessor(s.engine, change);
      case DoApprove(actionId', scope', token, at, draw) =>
        ApproveLeaves(cfg, s.controls, s.engine, actionId', scope', token, at, draw);
        KeptBySuccessor(s.engine, change);
        IdentityOfChange(s.engine, change);
      case DoAuthorize(r, scope', at, nonce) =>
        AuthorizeOutcome(cfg, s.controls, s.engine, r, scope', at, nonce);
        AuthorizeConcerns(cfg, s.controls, s.engine, r, scope', at, nonce);
        KeptBySuccessor(s.engine, change);
      case _ =>
    }
  }

  lemma EvaluateConcerns(cfg: Config, controls: seq<Control>, log: Log, r: PurchaseRequest, scope: TrustedScope,
                         at: int)
    ensures var change := EvaluateChange(cfg, controls, log, r, scope, at);
            change.Some? ==> Concerning(change, scope, r.actionId)
  {
    hide EvaluateRecord;
  }

  lemma KeptBySuccessor(log: Log, change: Option<Change>)
    requires change.Some? && Proper(log, change)
    ensures var before := LatestState(log, change.value.scope, change.value.actionId);
            before.Some? ==> change.value.record.request == before.value.request
                             && change.value.record.policyDigest == before.value.policyDigest
  {
    hide LatestState, RecordCore;
  }

  lemma IdentityOfChange(log: Log, change: Option<Change>)
    requires change.Some? && Proper(log, change)
    ensures change.value.record.request.actionId == change.value.actionId
  {
    hide LatestState, Successor, MakeIntent;
  }

  /** In every run, under any controls, the approvals of an action are the facts of one approval of its request by
      someone with the operator secret, which waited for it. */
  lemma {:induction false} ApprovalOrigin(cfg: Config, steps: seq<Step>, n: nat, scope: TrustedScope, actionId: string)
    returns (j: nat)
    requires n <= |steps|
    requires var record := StateAt(cfg, steps, n, scope, actionId); record.Some? && record.value.approvals != []
    ensures var record := StateAt(cfg, steps, n, scope, actionId).value;
            && j < n && ApprovedBy(cfg, steps, j, record.request, scope, record.approvals)
            && record.policyDigest == PolicyDigest(Run(cfg, steps[..j]).controls)
  {
    hide StateAt, ApprovedBy, Run, PolicyDigest;
    if n == 0 {
      NothingAtStart(cfg, steps, scope, actionId);
    } else {
      StepApprovals(cfg, steps, n - 1, scope, actionId);
      if SameApprovals(StateAt(cfg, steps, n - 1, scope, actionId), StateAt(cfg, steps, n, scope, actionId)) {
        j := ApprovalOrigin(cfg, steps, n - 1, scope, actionId);
        SightKept(cfg, steps, n, scope, actionId);
      } else {
        j := n - 1;
        ApprovedPolicyKept(cfg, steps, j, StateAt(cfg, steps, n, scope, actionId).value, scope, actionId);
      }
    }
  }

  lemma ApprovedPolicyKept(cfg: Config, steps: seq<Step>, j: nat, record: StateRecord, scope: TrustedScope,
                           actionId: string)
    requires ApprovedBy(cfg, steps, j, record.request, scope, record.approvals)
    requires StateAt(cfg, steps, j + 1, scope, actionId) == Some(record)
    ensures record.policyDigest == PolicyDigest(Run(cfg, steps[..j]).controls)
  {
    hide LatestState, Run, PolicyDigest, ApprovedRecord, EngineCore, MakeIntent;
    RunCore(cfg, steps[..j + 1]);
    CoreRecord(Run(cfg, steps[..j + 1]).engine, scope, actionId);
    SightKept(cfg, steps, j + 1, scope, actionId);
  }

  lemma {:induction false} FactAt(cfg: Config, basis: Decision, rs: seq<ApprovalRequirement>, at: int, draw: nat,
                                  k: nat)
    requires basis.digest.Some? && k < |rs|
    ensures |OperatorFacts(cfg, basis, rs, at, draw)| == |rs|
    ensures OperatorFacts(cfg, basis, rs, at, draw)[k] == OperatorFact(cfg, basis, rs[k], at, draw + k)
  {
    hide OperatorFact;
    if |rs| > 1 {
      FactAt(cfg, basis, rs[1..], at, draw + 1, if k > 0 then k - 1 else 0);
    } else {
      assert rs[1..] == [];
    }
  }

  /** The facts of an approval answer the requirements of the decision approved, one by one, name the operator and the
      intent that was approved, and are valid from the approval on, for at most 120 seconds and no longer than that
      decision. */
  lemma ApprovalFactFields(cfg: Config, steps: seq<Step>, j: nat, r: PurchaseRequest, scope: TrustedScope,
                           fs: seq<ApprovalFact>, k: nat)
    requires ApprovedBy(cfg, steps, j, r, scope, fs) && k < |fs|
    ensures StateAt(cfg, steps, j, scope, r.actionId).value.intent.intentDigest.Some?
    ensures var before := StateAt(cfg, steps, j, scope, r.actionId).value;
            var basis := before.decision.value;
            && |fs| == |basis.approvalRequirements|
            && fs[k].requirementId == basis.approvalRequirements[k].requirementId
            && fs[k].roles == [basis.approvalRequirements[k].role]
            && fs[k].scopeDigest == OfJson(JObj(basis.approvalRequirements[k].scope))
            && fs[k].approvalId == Random(steps[j].draw + k)
            && fs[k].approver.actorId == cfg.operatorId && fs[k].approver.kind == Human && fs[k].approver.lineage == []
            && fs[k].lineageComplete && fs[k].approved && fs[k].authority.objectId == cfg.operatorId
            && fs[k].intentRef == IntentRefOf(before.intent)
            && fs[k].basisRef == DecisionRefOf(basis)
            && fs[k].validFrom == steps[j].at
            && fs[k].validUntil == Min(basis.expiresAt, steps[j].at + 120_000_000)
  {
    hide LatestState, Run, EngineCore, OperatorFacts, MakeIntent, RequestDigest, PolicyDigest;
    var log := Run(cfg, steps[..j]).engine;
    RunCore(cfg, steps[..j]);
    CoreRecord(log, scope, r.actionId);
    var before := LatestState(log, scope, r.actionId).value;
    var basis := before.decision.value;
    assert Decides(basis, before);
    assert fs == OperatorFacts(cfg, basis, basis.approvalRequirements, steps[j].at, steps[j].draw);
    NoMoreFacts(cfg, basis, basis.approvalRequirements, steps[j].at, steps[j].draw);
    FactAt(cfg, basis, basis.approvalRequirements, steps[j].at, steps[j].draw, k);
  }

  lemma NoMoreFacts(cfg: Config, basis: Decision, rs: seq<ApprovalRequirement>, at: int, draw: nat)
    requires basis.digest.Some?
    ensures |OperatorFacts(cfg, basis, rs, at, draw)| == |rs|
  {
    if rs != [] {
      FactAt(cfg, basis, rs, at, draw, 0);
    }
  }

  // ---- Tickets under any controls ------------------------------------------

  /** What a ticket's issue rests on: the controls in force permit the intent first recorded to continue, at this time,
      on the facts of at most one approval, by someone with the operator secret, while exactly this request waited for
      it. */
  ghost predicate PermittedIssue(cfg: Config, steps: seq<Step>, i: nat, record: StateRecord) {
    && i < |steps| && steps[i].DoAuthorize?
    && record.intent == MakeIntent(steps[i].r, steps[i].scope, record.firstSeen)
    && (record.approvals != []
        ==> exists j: nat :: j < i && ApprovedBy(cfg, steps, j, steps[i].r, steps[i].scope, record.approvals))
    && record.decision.Some? && record.decision.value.route.kind == Continue
    && MayProceed(EngineEvaluator(cfg.canon), record.intent, SnapshotOf(Run(cfg, steps[..i]).controls, steps[i].at),
                  EngineFacts(record.basis, record.approvals))
  }

  /** In every run, under any controls, a ticket is issued only where the controls in force permit it. */
  lemma TicketIsPermitted(cfg: Config, steps: seq<Step>, i: nat, ticket: TicketText) returns (record: StateRecord)
    requires Issued(cfg, steps, i, ticket)
    ensures PermittedIssue(cfg, steps, i, record)
    ensures StateAt(cfg, steps, i + 1, steps[i].scope, steps[i].r.actionId) == Some(record)
  {
    hide StateAt, Run, Issued, MayProceed, ApprovedBy, Evaluate, MakeIntent, Names, Decides, RequestDigest;
    IssuedIsAuthorize(cfg, steps, i, ticket);
    record := IssueState(cfg, steps, i, ticket);
    PermitsIff(EngineEvaluator(cfg.canon), record.intent, SnapshotOf(Run(cfg, steps[..i]).controls, steps[i].at),
               EngineFacts(record.basis, record.approvals));
    if record.approvals != [] {
      var j := ApprovalOrigin(cfg, steps, i + 1, steps[i].scope, steps[i].r.actionId);
      assert j < i by { ApprovedIsApproval(cfg, steps, j, record.request, steps[i].scope, record.approvals); }
    }
  }

  lemma ApprovedIsApproval(cfg: Config, steps: seq<Step>, j: nat, r: PurchaseRequest, scope: TrustedScope,
                           fs: seq<ApprovalFact>)
    requires ApprovedBy(cfg, steps, j, r, scope, fs)
    ensures j < |steps| && steps[j].DoApprove?
  {
    hide StateAt;
  }

  // ---- Tickets of the example policy ---------------------------------------

  /** The engine runs with the example controls before the n-th step. */
  predicate UnderExample(cfg: Config, steps: seq<Step>, n: nat)
    requires n <= |steps|
  {
    Run(cfg, steps[..n]).controls == SyntheticControls()
  }

  /** The record the example policy reserves, and the ticket it hands out. */
  predicate IssuedSoundly(cfg: Config, steps: seq<Step>, record: StateRecord, r: PurchaseRequest, scope: TrustedScope,
                          at: int, nonce: Text, ticket: TicketText)
  {
    && IssuedRecord(cfg, SyntheticControls(), record, r, scope, at, nonce, ticket)
    && Entitled(cfg, steps, record, at) && at < record.reservation.value.expiresAt
  }

  /** What the record of an issued ticket says, at the moment of issue. */
  lemma IssueRecord(cfg: Config, steps: seq<Step>, i: nat, ticket: TicketText) returns (record: StateRecord)
    requires Issued(cfg, steps, i, ticket) && UnderExample(cfg, steps, i)
    ensures steps[i].DoAuthorize?
    ensures StateAt(cfg, steps, i + 1, steps[i].scope, steps[i].r.actionId) == Some(record)
    ensures IssuedSoundly(cfg, steps[..i], record, steps[i].r, steps[i].scope, steps[i].at, steps[i].nonce, ticket)
    ensures RecordSound(cfg, steps[..i], steps[i].scope, steps[i].r.actionId, record)
    ensures var before := StateAt(cfg, steps, i, steps[i].scope, steps[i].r.actionId);
            before.Some? ==> before.value.status != Reserved
  {
    hide EngineSound, AuthorizeStep, AuthorizeChange, LatestState, Run, RecordSound, SyntheticControls, RecordCore;
    hide IssuedRecord, Entitled, EngineCore;
    IssuedIsAuthorize(cfg, steps, i, ticket);
    var s := Run(cfg, steps[..i]);
    record := IssueState(cfg, steps, i, ticket);
    EngineSoundAt(cfg, steps, i);
    ReservedRecordSound(cfg, steps[..i], s.engine, steps[i].r, steps[i].scope, steps[i].at, steps[i].nonce);
    StateAfter(cfg, steps, i, steps[i].scope, steps[i].r.actionId);
    AuthorizeConcerns(cfg, s.controls, s.engine, steps[i].r, steps[i].scope, steps[i].at, steps[i].nonce);
  }

  /** The operator approved under the example controls; the state right after issue carries exactly that approval's
      fact, and the fact counts at the issue. */
  predicate ApprovedForIssue(cfg: Config, steps: seq<Step>, i: nat, j: nat, f: ApprovalFact) {
    && j < i < |steps| && steps[i].DoAuthorize? && UnderExample(cfg, steps, j)
    && ApprovedBy(cfg, steps, j, steps[i].r, steps[i].scope, [f])
    && var issued := StateAt(cfg, steps, i + 1, steps[i].scope, steps[i].r.actionId);
       && issued.Some? && issued.value.approvals == [f]
       && f.validFrom <= steps[i].at < f.validUntil
  }

  /** In every run, a ticket issued under the example controls means: the request is not recurring, and it is within the
      limit or an operator who is not the agent approved this very request, while it waited for that, in an earlier step
      under the example controls, whose fact the action still carries and which still counts. The ticket names the
      request and ends after it starts. What other controls the engine had before or in between does not matter. */
  lemma TicketNeedsAuthority(cfg: Config, steps: seq<Step>, i: nat, ticket: TicketText)
    requires Issued(cfg, steps, i, ticket) && UnderExample(cfg, steps, i)
    ensures var r, scope, at := steps[i].r, steps[i].scope, steps[i].at;
            && !r.recurring
            && (r.amountMinor <= LIMIT
                || (cfg.operatorId != AgentId(scope) && exists j, f :: ApprovedForIssue(cfg, steps, i, j, f)))
            && ticket.SignedTicket? && VerifyTicket(ticket, cfg.ticketSecret) == Some(ticket.payload)
            && ticket.payload.scope == scope && ticket.payload.actionId == r.actionId
            && ticket.payload.requestDigest == RequestDigest(r)
            && ticket.payload.policyDigest == PolicyDigest(SyntheticControls())
            && ticket.payload.issuedAt == at && at < ticket.payload.expiresAt <= at + 30_000_000
  {
    hide StateAt, Run, Issued, ApprovesRecord, RecordSound, AgentId, RequestDigest, ApprovedBy, SyntheticControls;
    hide Allowed, DecisionFor;
    IssuedIsAuthorize(cfg, steps, i, ticket);
    var record := IssueRecord(cfg, steps, i, ticket);
    if record.request.amountMinor > LIMIT {
      var j := ApprovalOrigin(cfg, steps, i + 1, steps[i].scope, steps[i].r.actionId);
      assert j < i by { ApprovedIsApproval(cfg, steps, j, record.request, steps[i].scope, record.approvals); }
      assert record.approvals == [record.approvals[0]];
      assert ApprovedForIssue(cfg, steps, i, j, record.approvals[0]);
    }
  }
}
