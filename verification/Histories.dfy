/** Every run only ever extends the two logs, and both verify after it. */
module Histories {
  import opened Wrappers
  import opened Ledgers
  import opened Policy
  import opened Contracts
  import opened Engine
  import opened Target
  import opened Protocol

  /** The later log continues the earlier one, and verifies if that one did. */
  predicate Continues<P(==)>(log: seq<Event<P>>, log': seq<Event<P>>) {
    log <= log' && (Chained(log) ==> Chained(log'))
  }

  lemma AppendContinues<P>(log: seq<Event<P>>, mid: seq<Event<P>>, scope: Digest, actionId: string, kind: string,
                           payload: P)
    requires Continues(log, mid)
    ensures Continues(log, Append(mid, scope, actionId, kind, payload))
  {
    hide Chained;
    if Chained(log) {
      AppendKeepsChain(mid, scope, actionId, kind, payload);
    }
  }

  lemma RecordContinues(log: Log, mid: Log, scope: TrustedScope, actionId: string, record: StateRecord)
    requires Continues(log, mid)
    ensures Continues(log, Record(mid, scope, actionId, record))
  {
    hide Continues, Append;
    AppendContinues(log, mid, ScopeKey(scope), actionId, STATE, StatePayload(record));
  }

  lemma DenialContinues(log: Log, mid: Log, scope: TrustedScope, actionId: string, reason: Denial, at: int)
    requires Continues(log, mid)
    ensures Continues(log, RecordDenial(mid, scope, actionId, reason, at))
  {
    hide Continues, Append;
    AppendContinues(log, mid, ScopeKey(scope), actionId, DENIED, DenialPayload(reason, at));
  }

  lemma EvaluationContinues(cfg: Config, controls: seq<Control>, log: Log, mid: Log, r: PurchaseRequest,
                            scope: TrustedScope, at: int)
    requires Continues(log, mid)
    ensures var o := EvaluateRecord(cfg, controls, mid, r, scope, at); o.Done? ==> Continues(log, o.value.log)
  {
    hide Continues, DecisionFor, CurrentRecord, StaleReason, Record;
    var o := EvaluateRecord(cfg, controls, mid, r, scope, at);
    if o.Done? {
      RecordContinues(log, mid, scope, r.actionId, o.value.record);
    }
  }

  lemma ApproveContinues(cfg: Config, controls: seq<Control>, log: Log, actionId: string, scope: TrustedScope,
                         token: string, at: int, draw: nat)
    ensures Continues(log, ApproveStep(cfg, controls, log, actionId, scope, token, at, draw).log)
  {
    hide LatestState, EvaluateRecord, ApprovalBasis, ApprovedRecord, Record, RecordDenial, AgentId, Allowed;
    hide Continues;
    assert Continues(log, log) by { SameContinues(log); }
    var stored := LatestState(log, scope, actionId);
    var basis := ApprovalBasis(cfg, controls, stored, token, at);
    if basis.Denied? {
      DenialContinues(log, log, scope, actionId, basis.reason, at);
    }
    if basis.Done? {
      var approved := ApprovedRecord(cfg, stored.value, at, draw);
      var recorded := Record(log, scope, actionId, approved);
      RecordContinues(log, log, scope, actionId, approved);
      EvaluationContinues(cfg, controls, log, recorded, approved.request, scope, at);
      var e := EvaluateRecord(cfg, controls, recorded, approved.request, scope, at);
      match e
      case Denied(reason) => DenialContinues(log, recorded, scope, actionId, reason, at);
      case Done(value) => DenialContinues(log, value.log, scope, actionId, ApprovalRejected, at);
      case Crashed =>
    }
  }

  lemma SameContinues<P>(log: seq<Event<P>>)
    ensures Continues(log, log)
  {
  }

  lemma AuthorizeContinues(cfg: Config, controls: seq<Control>, log: Log, r: PurchaseRequest, scope: TrustedScope,
                           at: int, nonce: Text)
    ensures Continues(log, AuthorizeStep(cfg, controls, log, r, scope, at, nonce).log)
  {
    hide EvaluateRecord, AuthorizeRefusal, Record, RecordDenial, TicketFor, Continues;
    assert Continues(log, log) by { SameContinues(log); }
    EvaluationContinues(cfg, controls, log, log, r, scope, at);
    var o := EvaluateRecord(cfg, controls, log, r, scope, at);
    if o.Denied? {
      DenialContinues(log, log, scope, r.actionId, o.reason, at);
    } else if o.Done? {
      var refusal := AuthorizeRefusal(o.value);
      if refusal.Some? {
        DenialContinues(log, o.value.log, scope, r.actionId, refusal.value, at);
      } else if o.value.decision.digest.Some? {
        var payload := TicketFor(controls, o.value.record, o.value.decision, r, scope, at, nonce);
        RecordContinues(log, o.value.log, scope, r.actionId, ReservedRecord(o.value.record, payload));
      }
    }
  }

  lemma CommitContinues(secret: string, log: TargetLog, r: PurchaseRequest, ticket: Tickets.TicketText, at: int)
    ensures Continues(log, CommitStep(secret, log, r, ticket, at).log)
  {
    hide Continues, Append, TicketRefusal, PurchaseOf, EvidenceFor, SignEvidence;
    assert Continues(log, log) by { SameContinues(log); }
    var binding := Tickets.VerifyTicket(ticket, secret);
    if TicketRefusal(binding, r, at).None? {
      NoRefusalHasBinding(binding, r, at);
      var scope := binding.value.scope;
      AppendContinues(log, log, ScopeKey(scope), r.actionId, PURCHASE,
                      SignEvidence(EvidenceFor(r, scope, binding.value.nonce, at), secret));
    }
  }

  lemma NoRefusalHasBinding(binding: Option<Tickets.TicketPayload>, r: PurchaseRequest, at: int)
    requires TicketRefusal(binding, r, at).None?
    ensures binding.Some?
  {
  }

  /** Every step only appends, and keeps both logs verifiable. */
  lemma StepContinues(cfg: Config, s: System, step: Step)
    ensures Continues(s.engine, Next(cfg, s, step).engine) && Continues(s.target, Next(cfg, s, step).target)
  {
    hide Continues, ApproveStep, AuthorizeStep, CommitStep, EvaluateRecord, Reconciles, Append, RecordDenial;
    SameContinues(s.engine);
    SameContinues(s.target);
    match step
    case DoEvaluate(r, scope, at) =>
      EvaluationContinues(cfg, s.controls, s.engine, s.engine, r, scope, at);
      var o := EvaluateRecord(cfg, s.controls, s.engine, r, scope, at);
      if o.Denied? {
        DenialContinues(s.engine, s.engine, scope, r.actionId, o.reason, at);
      }
    case DoApprove(actionId, scope, token, at, draw) =>
      ApproveContinues(cfg, s.controls, s.engine, actionId, scope, token, at, draw);
    case DoAuthorize(r, scope, at, nonce) =>
      AuthorizeContinues(cfg, s.controls, s.engine, r, scope, at, nonce);
    case DoCommit(r, ticket, at) =>
      CommitContinues(cfg.ticketSecret, s.target, r, ticket, at);
    case DoReconcile(r, scope, receipt, at) =>
      var valid := Reconciles(cfg, LatestState(s.engine, scope, r.actionId), r, scope, receipt);
      AppendContinues(s.engine, s.engine, ScopeKey(scope), r.actionId, RECONCILIATION,
                      ReconciliationPayload(at, valid, receipt));
    case DoRestart(_) =>
  }

  /** After any steps whatever, possible or not, both logs verify, and each still begins with what it held before. */
  lemma {:induction false} RunVerifies(cfg: Config, steps: seq<Step>, n: nat)
    requires n <= |steps|
    ensures Chained(Run(cfg, steps).engine) && Chained(Run(cfg, steps).target)
    ensures Run(cfg, steps[..n]).engine <= Run(cfg, steps).engine
    ensures Run(cfg, steps[..n]).target <= Run(cfg, steps).target
  {
    hide Next;
    if n < |steps| {
      var m := |steps| - 1;
      RunVerifies(cfg, steps[..m], n);
      assert steps[..m][..n] == steps[..n];
      StepContinues(cfg, Run(cfg, steps[..m]), steps[m]);
    } else {
      assert steps[..n] == steps;
      if n > 0 {
        RunVerifies(cfg, steps[..n - 1], n - 1);
        StepContinues(cfg, Run(cfg, steps[..n - 1]), steps[n - 1]);
      }
    }
  }
}
