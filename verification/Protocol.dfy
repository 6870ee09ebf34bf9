/** The whole system as a state machine: engine and target transactions in any order, at any clock readings, and
    restarts of the engine with any controls. */
module Protocol {
  import opened Wrappers
  import opened Contracts
  import opened Evaluator
  import opened Ledgers
  import opened Policy
  import opened Tickets
  import opened Engine
  import opened Target

  // ---- The machine ---------------------------------------------------------

  datatype Step =
    | DoEvaluate(r: PurchaseRequest, scope: TrustedScope, at: int)
    | DoApprove(actionId: string, scope: TrustedScope, token: string, at: int, draw: nat)
    | DoAuthorize(r: PurchaseRequest, scope: TrustedScope, at: int, nonce: Text)
    | DoCommit(r: PurchaseRequest, ticket: TicketText, at: int)
    | DoReconcile(r: PurchaseRequest, scope: TrustedScope, receipt: Option<ReceiptClaim>, at: int)
    | DoRestart(controls: seq<Control>)

  /** Both logs, every MAC that engine and target have released, and the controls the engine runs with. */
  datatype System = System(engine: Log, target: TargetLog, macs: set<Mac>, controls: seq<Control>)

  /** Nothing has happened, and the engine has no controls before its first restart. */
  const START := System([], [], {}, [])

  function Next(cfg: Config, s: System, step: Step): System {
    match step
    case DoEvaluate(r, scope, at) => s.(engine := EvaluateStep(cfg, s.controls, s.engine, r, scope, at).log)
    case DoApprove(actionId, scope, token, at, draw) =>
      s.(engine := ApproveStep(cfg, s.controls, s.engine, actionId, scope, token, at, draw).log)
    case DoAuthorize(r, scope, at, nonce) =>
      var e := AuthorizeStep(cfg, s.controls, s.engine, r, scope, at, nonce);
      s.(engine := e.log,
         macs := if e.outcome.Done? && e.outcome.value.SignedTicket? then s.macs + {e.outcome.value.mac} else s.macs)
    case DoCommit(r, ticket, at) =>
      var c := CommitStep(cfg.ticketSecret, s.target, r, ticket, at);
      s.(target := c.log,
         macs := if c.result.Ok? && c.result.value.mac.Some? then s.macs + {c.result.value.mac.value} else s.macs)
    case DoReconcile(r, scope, receipt, at) => s.(engine := ReconcileStep(cfg, s.engine, r, scope, receipt, at).0)
    case DoRestart(controls) => s.(controls := controls)
  }

  /** Nobody outside engine and target can make a MAC under the ticket secret. */
  predicate Presentable(cfg: Config, s: System, mac: Mac) {
    mac.key == cfg.ticketSecret ==> mac in s.macs
  }

  predicate Possible(cfg: Config, s: System, step: Step) {
    match step
    case DoCommit(_, ticket, _) => ticket.SignedTicket? ==> Presentable(cfg, s, ticket.mac)
    case DoReconcile(_, _, receipt, _) =>
      receipt.Some? && receipt.value.mac.Some? ==> Presentable(cfg, s, receipt.value.mac.value)
    case _ => true
  }

  function Run(cfg: Config, steps: seq<Step>): System {
    if steps == [] then START else Next(cfg, Run(cfg, steps[..|steps| - 1]), steps[|steps| - 1])
  }

  predicate PossibleRun(cfg: Config, steps: seq<Step>) {
    forall i :: 0 <= i < |steps| ==> Possible(cfg, Run(cfg, steps[..i]), steps[i])
  }

  lemma RunStep(cfg: Config, steps: seq<Step>, i: nat)
    requires i < |steps|
    ensures Run(cfg, steps[..i + 1]) == Next(cfg, Run(cfg, steps[..i]), steps[i])
  {
    hide Next;
    assert steps[..i + 1][..i] == steps[..i];
  }

  lemma PrefixPossible(cfg: Config, steps: seq<Step>, n: nat)
    requires PossibleRun(cfg, steps) && n <= |steps|
    ensures PossibleRun(cfg, steps[..n])
  {
    hide Run, Possible;
    forall i | 0 <= i < n
      ensures Possible(cfg, Run(cfg, steps[..n][..i]), steps[..n][i])
    {
      assert steps[..n][..i] == steps[..i];
    }
  }

  lemma StepIsPossible(cfg: Config, steps: seq<Step>, j: nat)
    requires PossibleRun(cfg, steps) && j < |steps|
    ensures Possible(cfg, Run(cfg, steps[..j]), steps[j])
  {
    hide Run, Possible;
  }

  /** The i-th step asked for authorization and got this ticket. */
  predicate Issued(cfg: Config, steps: seq<Step>, i: nat, ticket: TicketText) {
    && i < |steps| && steps[i].DoAuthorize?
    && var s := Run(cfg, steps[..i]);
       AuthorizeStep(cfg, s.controls, s.engine, steps[i].r, steps[i].scope, steps[i].at, steps[i].nonce).outcome
       == Done(ticket)
  }

  lemma IssuedIsAuthorize(cfg: Config, steps: seq<Step>, i: nat, ticket: TicketText)
    requires Issued(cfg, steps, i, ticket)
    ensures i < |steps| && steps[i].DoAuthorize?
  {
  }

  /** The newest state of an action before the n-th step. */
  function StateAt(cfg: Config, steps: seq<Step>, n: nat, scope: TrustedScope, actionId: string): Option<StateRecord>
    requires n <= |steps|
  {
    LatestState(Run(cfg, steps[..n]).engine, scope, actionId)
  }

  lemma NothingAtStart(cfg: Config, steps: seq<Step>, scope: TrustedScope, actionId: string)
    ensures StateAt(cfg, steps, 0, scope, actionId).None?
  {
  }

  // ---- What every record is, whatever the controls --------------------------

  /** The payload of a ticket for the record's action: its request, under the controls that saw it first. */
  predicate Names(p: TicketPayload, record: StateRecord) {
    && TicketShape(p) && p.scope == record.scope && p.actionId == record.request.actionId
    && p.requestDigest == record.requestDigest && p.policyDigest == record.policyDigest
  }

  /** A decision about the record's intent, genuine, never authoritative, and good for 120 seconds. */
  predicate Decides(d: Decision, record: StateRecord) {
    && VerifiedDecision(d) && record.intent.intentDigest.Some? && d.intentRef == IntentRefOf(record.intent)
    && d.expiresAt == d.evaluatedAt + 120_000_000 && d.conformance
  }

  predicate RecordCore(scope: TrustedScope, actionId: string, record: StateRecord) {
    && record.scope == scope && record.request.actionId == actionId
    && record.requestDigest == RequestDigest(record.request)
    && record.intent == MakeIntent(record.request, scope, record.firstSeen)
    && (record.status == Reserved <==> record.reservation.Some?)
    && (record.reservation.Some? ==> Names(record.reservation.value, record))
    && (record.decision.Some? ==> Decides(record.decision.value, record))
    && (record.status == Pending ==> record.approvals == [] && record.basis.None?)
  }

  /** Every action's newest state is such a record, with a decision. */
  ghost predicate EngineCore(log: Log) {
    forall scope, actionId :: LatestState(log, scope, actionId).Some?
      ==> && RecordCore(scope, actionId, LatestState(log, scope, actionId).value)
          && LatestState(log, scope, actionId).value.decision.Some?
  }

  lemma CoreRecord(log: Log, scope: TrustedScope, actionId: string)
    requires EngineCore(log) && LatestState(log, scope, actionId).Some?
    ensures RecordCore(scope, actionId, LatestState(log, scope, actionId).value)
    ensures LatestState(log, scope, actionId).value.decision.Some?
  {
    hide LatestState, RecordCore;
  }

  lemma CoreIdentity(scope: TrustedScope, actionId: string, record: StateRecord)
    requires RecordCore(scope, actionId, record)
    ensures record.scope == scope && record.request.actionId == actionId
    ensures record.requestDigest == RequestDigest(record.request)
    ensures record.intent.actor.actorId == AgentId(scope)
  {
  }

  // ---- How a step changes the newest records -------------------------------

  /** A step left this record as the newest state of the action. */
  datatype Change = Change(scope: TrustedScope, actionId: string, record: StateRecord)

  predicate Concerning(change: Option<Change>, scope: TrustedScope, actionId: string) {
    change.Some? && change.value.scope == scope && change.value.actionId == actionId
  }

  /** The newest states after are those before, but for the change. */
  ghost predicate Changed(log: Log, log': Log, change: Option<Change>) {
    forall scope, actionId :: LatestState(log', scope, actionId)
      == if Concerning(change, scope, actionId) then Some(change.value.record) else LatestState(log, scope, actionId)
  }

  lemma RecordChanges(log: Log, scope: TrustedScope, actionId: string, record: StateRecord)
    ensures Changed(log, Record(log, scope, actionId, record), Some(Change(scope, actionId, record)))
  {
    forall scope': TrustedScope, actionId': string
      ensures LatestState(Record(log, scope, actionId, record), scope', actionId')
              == if scope' == scope && actionId' == actionId then Some(record) else LatestState(log, scope', actionId')
    {
      LatestAfterAppend(log, ScopeKey(scope), actionId, STATE, StatePayload(record), ScopeKey(scope'), actionId',
                        STATE);
      if ScopeKey(scope) == ScopeKey(scope') {
        ScopeKeyInjective(scope, scope');
      }
    }
  }

  lemma OtherKindChangesNothing(log: Log, scope: Digest, actionId: string, kind: string, payload: Payload)
    requires kind != STATE
    ensures Changed(log, Append(log, scope, actionId, kind, payload), None)
  {
    forall scope': TrustedScope, actionId': string
      ensures LatestState(Append(log, scope, actionId, kind, payload), scope', actionId')
              == LatestState(log, scope', actionId')
    {
      LatestAfterAppend(log, scope, actionId, kind, payload, ScopeKey(scope'), actionId', STATE);
    }
  }

  lemma DenialChangesNothing(log: Log, scope: TrustedScope, actionId: string, reason: Denial, at: int)
    ensures Changed(log, RecordDenial(log, scope, actionId, reason, at), None)
  {
    assert |DENIED| == 6 && |STATE| == 5;
    OtherKindChangesNothing(log, ScopeKey(scope), actionId, DENIED, DenialPayload(reason, at));
  }

  lemma ReconcileChangesNothing(cfg: Config, log: Log, r: PurchaseRequest, scope: TrustedScope,
                                receipt: Option<ReceiptClaim>, at: int)
    ensures Changed(log, ReconcileStep(cfg, log, r, scope, receipt, at).0, None)
  {
    hide Changed, LatestState, Reconciles;
    assert |RECONCILIATION| == 14 && |STATE| == 5;
    var valid := Reconciles(cfg, LatestState(log, scope, r.actionId), r, scope, receipt);
    OtherKindChangesNothing(log, ScopeKey(scope), r.actionId, RECONCILIATION,
                            ReconciliationPayload(at, valid, receipt));
  }

  lemma SameLog(log: Log)
    ensures Changed(log, log, None)
  {
  }

  lemma ChangeThenNothing(log: Log, mid: Log, log': Log, change: Option<Change>)
    requires Changed(log, mid, change) && Changed(mid, log', None)
    ensures Changed(log, log', change)
  {
    hide LatestState;
  }

  lemma TwoChanges(log: Log, mid: Log, log': Log, scope: TrustedScope, actionId: string, first: StateRecord,
                   second: StateRecord)
    requires Changed(log, mid, Some(Change(scope, actionId, first)))
    requires Changed(mid, log', Some(Change(scope, actionId, second)))
    ensures Changed(log, log', Some(Change(scope, actionId, second)))
  {
    hide LatestState;
  }

  /** What each step leaves. */
  function EvaluateChange(cfg: Config, controls: seq<Control>, log: Log, r: PurchaseRequest, scope: TrustedScope,
                          at: int): Option<Change>
  {
    match EvaluateRecord(cfg, controls, log, r, scope, at)
    case Done(e) => Some(Change(scope, r.actionId, e.record))
    case _ => None
  }

  function ApproveChange(cfg: Config, controls: seq<Control>, log: Log, actionId: string, scope: TrustedScope,
                         token: string, at: int, draw: nat): Option<Change>
  {
    var stored := LatestState(log, scope, actionId);
    if !ApprovalBasis(cfg, controls, stored, token, at).Done? then None
    else
      var approved := ApprovedRecord(cfg, stored.value, at, draw);
      match EvaluateRecord(cfg, controls, Record(log, scope, actionId, approved), approved.request, scope, at)
      case Crashed => None
      case Denied(_) => Some(Change(scope, actionId, approved))
      case Done(e) => Some(Change(scope, actionId, e.record))
  }

  function AuthorizeChange(cfg: Config, controls: seq<Control>, log: Log, r: PurchaseRequest, scope: TrustedScope,
                           at: int, nonce: Text): Option<Change>
  {
    match EvaluateRecord(cfg, controls, log, r, scope, at)
    case Done(e) =>
      if AuthorizeRefusal(e).Some? then Some(Change(scope, r.actionId, e.record))
      else if e.decision.digest.None? then None
      else
        var payload := TicketFor(controls, e.record, e.decision, r, scope, at, nonce);
        Some(Change(scope, r.actionId, ReservedRecord(e.record, payload)))
    case _ => None
  }

  function StepChange(cfg: Config, s: System, step: Step): Option<Change> {
    match step
    case DoEvaluate(r, scope, at) => EvaluateChange(cfg, s.controls, s.engine, r, scope, at)
    case DoApprove(actionId, scope, token, at, draw) =>
      ApproveChange(cfg, s.controls, s.engine, actionId, scope, token, at, draw)
    case DoAuthorize(r, scope, at, nonce) => AuthorizeChange(cfg, s.controls, s.engine, r, scope, at, nonce)
    case _ => None
  }

  /** The newest state may move on, but never to another request or policy, and never out of its reservation. */
  predicate Successor(before: Option<StateRecord>, record: StateRecord) {
    before.Some?
    ==> && record.request == before.value.request
        && record.firstSeen == before.value.firstSeen
        && record.policyDigest == before.value.policyDigest
        && (before.value.status == Reserved
            ==> record.status == Reserved && record.reservation == before.value.reservation)
  }

  /** The change leaves a proper record that succeeds what was there. */
  predicate Proper(log: Log, change: Option<Change>) {
    change.Some?
    ==> && RecordCore(change.value.scope, change.value.actionId, change.value.record)
        && change.value.record.decision.Some?
        && Successor(LatestState(log, change.value.scope, change.value.actionId), change.value.record)
  }

  // ---- Evaluation ----------------------------------------------------------

  /** An evaluation that got through: what it found, and that it only attached a decision. */
  predicate EvaluatedFrom(cfg: Config, controls: seq<Control>, found: StateRecord, r: PurchaseRequest, at: int,
                          e: Evaluated)
  {
    && found.request == r && found.policyDigest == PolicyDigest(controls)
    && found.firstSeen <= at < found.firstSeen + ACTION_WINDOW
    && e.record == found.(decision := Some(e.decision))
    && DecisionFor(cfg, controls, found, at) == Ok(e.decision)
    && e.decision.evaluatedAt == at && Decides(e.decision, found)
  }

  lemma DecisionDecides(cfg: Config, controls: seq<Control>, record: StateRecord, at: int)
    ensures var d := DecisionFor(cfg, controls, record, at);
            d.Ok? ==> Decides(d.value, record) && d.value.evaluatedAt == at
  {
    hide Evaluate;
    if DecisionFor(cfg, controls, record, at).Ok? {
      DecisionBinds(EngineEvaluator(cfg.canon), record.intent, SnapshotOf(controls, at),
                    EngineFacts(record.basis, record.approvals));
    }
  }

  lemma FoundCore(controls: seq<Control>, log: Log, r: PurchaseRequest, scope: TrustedScope, at: int)
    requires EngineCore(log)
    ensures RecordCore(scope, r.actionId, CurrentRecord(controls, log, r, scope, at))
  {
    hide MakeIntent, LatestState, RequestDigest;
  }

  lemma EvaluationFound(cfg: Config, controls: seq<Control>, log: Log, r: PurchaseRequest, scope: TrustedScope, at: int)
    requires EngineCore(log)
    ensures var o := EvaluateRecord(cfg, controls, log, r, scope, at);
            o.Done?
            ==> && EvaluatedFrom(cfg, controls, CurrentRecord(controls, log, r, scope, at), r, at, o.value)
                && o.value.log == Record(log, scope, r.actionId, o.value.record)
                && RecordCore(scope, r.actionId, o.value.record)
  {
    hide DecisionFor, CurrentRecord, EngineCore, Record, RequestDigest, MakeIntent, TicketShape;
    var record := CurrentRecord(controls, log, r, scope, at);
    DecisionDecides(cfg, controls, record, at);
    FoundCore(controls, log, r, scope, at);
    if EvaluateRecord(cfg, controls, log, r, scope, at).Done? {
      RequestDigestInjective(record.request, r);
    }
  }

  lemma FoundIsSuccessor(controls: seq<Control>, log: Log, r: PurchaseRequest, scope: TrustedScope, at: int)
    ensures var found := CurrentRecord(controls, log, r, scope, at);
            var stored := LatestState(log, scope, r.actionId);
            if stored.Some? then found == stored.value
            else found.approvals == [] && found.status == Pending && found.firstSeen == at
  {
    hide LatestState;
  }

  lemma EvaluationChanges(cfg: Config, controls: seq<Control>, log: Log, r: PurchaseRequest, scope: TrustedScope,
                          at: int)
    requires EngineCore(log)
    ensures var o := EvaluateRecord(cfg, controls, log, r, scope, at);
            o.Done? ==> Changed(log, o.value.log, Some(Change(scope, r.actionId, o.value.record)))
                        && Proper(log, Some(Change(scope, r.actionId, o.value.record)))
  {
    hide EvaluateRecord, LatestState, Changed, EngineCore, RecordCore, CurrentRecord, Record;
    var o := EvaluateRecord(cfg, controls, log, r, scope, at);
    EvaluationFound(cfg, controls, log, r, scope, at);
    FoundIsSuccessor(controls, log, r, scope, at);
    if o.Done? {
      RecordChanges(log, scope, r.actionId, o.value.record);
    }
  }

  lemma EvaluateStepChanges(cfg: Config, controls: seq<Control>, log: Log, r: PurchaseRequest, scope: TrustedScope,
                            at: int)
    requires EngineCore(log)
    ensures var change := EvaluateChange(cfg, controls, log, r, scope, at);
            Changed(log, EvaluateStep(cfg, controls, log, r, scope, at).log, change) && Proper(log, change)
  {
    hide EvaluateRecord, LatestState, Changed, EngineCore, RecordCore, RecordDenial, Successor;
    var o := EvaluateRecord(cfg, controls, log, r, scope, at);
    EvaluationChanges(cfg, controls, log, r, scope, at);
    SameLog(log);
    if o.Denied? {
      DenialChangesNothing(log, scope, r.actionId, o.reason, at);
    }
  }

  // ---- Approval ------------------------------------------------------------

  /** What an approval that gets past its refusals records first. */
  lemma ApprovedFrom(cfg: Config, controls: seq<Control>, log: Log, actionId: string, scope: TrustedScope,
                     token: string, at: int, draw: nat)
    requires EngineCore(log) && ApprovalBasis(cfg, controls, LatestState(log, scope, actionId), token, at).Done?
    ensures var record := LatestState(log, scope, actionId).value;
            var approved := ApprovedRecord(cfg, record, at, draw);
            var recorded := Record(log, scope, actionId, approved);
            && RecordCore(scope, actionId, record) && RecordCore(scope, actionId, approved)
            && Changed(log, recorded, Some(Change(scope, actionId, approved)))
            && Proper(log, Some(Change(scope, actionId, approved)))
            && EngineCore(recorded) && LatestState(recorded, scope, actionId) == Some(approved)
            && approved.request == record.request && approved.request.actionId == actionId
            && approved.intent.actor.actorId == AgentId(scope)
  {
    hide LatestState, Changed, Record, MakeIntent, RequestDigest, OperatorFacts, AgentId, TicketShape, EngineCore;
    var record := LatestState(log, scope, actionId).value;
    var approved := ApprovedRecord(cfg, record, at, draw);
    CoreRecord(log, scope, actionId);
    assert RecordCore(scope, actionId, approved);
    CoreIdentity(scope, actionId, approved);
    RecordChanges(log, scope, actionId, approved);
    assert Proper(log, Some(Change(scope, actionId, approved)));
    ChangeKeepsCore(log, Record(log, scope, actionId, approved), Some(Change(scope, actionId, approved)));
    ChangedTo(log, Record(log, scope, actionId, approved), scope, actionId, approved);
  }

  lemma ChangedTo(log: Log, log': Log, scope: TrustedScope, actionId: string, record: StateRecord)
    requires Changed(log, log', Some(Change(scope, actionId, record)))
    ensures LatestState(log', scope, actionId) == Some(record)
  {
    hide LatestState;
  }

  lemma ChangeKeepsCore(log: Log, log': Log, change: Option<Change>)
    requires EngineCore(log) && Changed(log, log', change) && Proper(log, change)
    ensures EngineCore(log')
  {
    hide LatestState, RecordCore, Successor;
  }

  lemma ApproveStepChanges(cfg: Config, controls: seq<Control>, log: Log, actionId: string, scope: TrustedScope,
                           token: string, at: int, draw: nat)
    requires EngineCore(log)
    ensures var change := ApproveChange(cfg, controls, log, actionId, scope, token, at, draw);
            Changed(log, ApproveStep(cfg, controls, log, actionId, scope, token, at, draw).log, change)
            && Proper(log, change)
  {
    hide EvaluateRecord, LatestState, Changed, EngineCore, RecordCore, RecordDenial, Record, ApprovedRecord, Allowed;
    hide AgentId, ApprovalBasis;
    var stored := LatestState(log, scope, actionId);
    var basis := ApprovalBasis(cfg, controls, stored, token, at);
    SameLog(log);
    if basis.Denied? {
      DenialChangesNothing(log, scope, actionId, basis.reason, at);
    }
    if basis.Done? {
      ApprovedFrom(cfg, controls, log, actionId, scope, token, at, draw);
      var approved := ApprovedRecord(cfg, stored.value, at, draw);
      var recorded := Record(log, scope, actionId, approved);
      var e := EvaluateRecord(cfg, controls, recorded, approved.request, scope, at);
      EvaluationChanges(cfg, controls, recorded, approved.request, scope, at);
      if e.Denied? {
        DenialChangesNothing(recorded, scope, actionId, e.reason, at);
        ChangeThenNothing(log, recorded, RecordDenial(recorded, scope, actionId, e.reason, at),
                          Some(Change(scope, actionId, approved)));
      }
      if e.Done? {
        TwoChanges(log, recorded, e.value.log, scope, actionId, approved, e.value.record);
        DenialChangesNothing(e.value.log, scope, actionId, ApprovalRejected, at);
        ChangeThenNothing(log, e.value.log, RecordDenial(e.value.log, scope, actionId, ApprovalRejected, at),
                          Some(Change(scope, actionId, e.value.record)));
      }
    }
  }

  // ---- Authorization -------------------------------------------------------

  /** A ticket ends at the first of its limits: 30 seconds on, the end of its decision, 300 seconds after its action was
      first seen, the end of any approval; so after its issue exactly when it is issued before the last three. */
  lemma TicketWindow(record: StateRecord, d: Decision, at: int)
    ensures var end := TicketEnd(record, d, at);
            && end <= at + 30_000_000 && end <= d.expiresAt && end <= record.firstSeen + 300_000_000
            && (forall k :: 0 <= k < |record.approvals| ==> end <= record.approvals[k].validUntil)
            && (|| end == at + 30_000_000 || end == d.expiresAt || end == record.firstSeen + 300_000_000
                || exists k :: 0 <= k < |record.approvals| && end == record.approvals[k].validUntil)
            && (at < end <==> at < d.expiresAt && at < record.firstSeen + 300_000_000
                              && forall k :: 0 <= k < |record.approvals| ==> at < record.approvals[k].validUntil)
  {
    EarliestIsEarliest(Min(Min(d.expiresAt, at + TICKET_WINDOW), record.firstSeen + ACTION_WINDOW), record.approvals,
                       at);
  }

  lemma {:induction false} EarliestIsEarliest(limit: int, approvals: seq<ApprovalFact>, at: int)
    ensures var end := EarliestEnd(limit, approvals);
            && end <= limit && (forall k :: 0 <= k < |approvals| ==> end <= approvals[k].validUntil)
            && (end == limit || exists k :: 0 <= k < |approvals| && end == approvals[k].validUntil)
            && (at < end <==> at < limit && forall k :: 0 <= k < |approvals| ==> at < approvals[k].validUntil)
    decreases |approvals|
  {
    if approvals != [] {
      var rest := approvals[1..];
      EarliestIsEarliest(Min(limit, approvals[0].validUntil), rest, at);
      assert forall k :: 0 < k < |approvals| ==> approvals[k] == rest[k - 1];
      assert forall k :: 0 <= k < |rest| ==> rest[k] == approvals[k + 1];
    }
  }

  /** The record a successful authorization reserves, and the ticket it hands out, whatever the controls. */
  predicate IssuedRecord(cfg: Config, controls: seq<Control>, record: StateRecord, r: PurchaseRequest,
                         scope: TrustedScope, at: int, nonce: Text, ticket: TicketText)
  {
    && record.status == Reserved && record.reservation.Some? && record.request == r && record.scope == scope
    && record.policyDigest == PolicyDigest(controls)
    && record.firstSeen <= at < record.firstSeen + 300_000_000
    && record.decision.Some? && (record.decision.value.verdict == Allow
                                 || record.decision.value.verdict == AllowWithConditions)
    && record.decision.value.route.kind == Continue
    && DecisionFor(cfg, controls, record, at) == Ok(record.decision.value)
    && var p := record.reservation.value;
       && ticket == SignTicket(p, cfg.ticketSecret) && Names(p, record)
       && p.requestDigest == RequestDigest(r) && record.decision.value.digest == Some(p.decisionDigest)
       && p.nonce == nonce && p.issuedAt == at
       && p.expiresAt <= at + 30_000_000 && p.expiresAt <= record.firstSeen + 300_000_000
       && p.expiresAt <= record.decision.value.expiresAt
       && forall k :: 0 <= k < |record.approvals| ==> p.expiresAt <= record.approvals[k].validUntil
  }

  lemma ReservedFrom(cfg: Config, controls: seq<Control>, found: StateRecord, r: PurchaseRequest, scope: TrustedScope,
                     at: int, nonce: Text, e: Evaluated)
    requires EvaluatedFrom(cfg, controls, found, r, at, e) && RecordCore(scope, r.actionId, e.record)
    requires AuthorizeRefusal(e).None? && e.decision.digest.Some?
    ensures var p := TicketFor(controls, e.record, e.decision, r, scope, at, nonce);
            && IssuedRecord(cfg, controls, ReservedRecord(e.record, p), r, scope, at, nonce,
                            SignTicket(p, cfg.ticketSecret))
            && RecordCore(scope, r.actionId, ReservedRecord(e.record, p))
  {
    hide MakeIntent, RequestDigest, TicketEnd, Evaluate;
    TicketWindow(e.record, e.decision, at);
  }

  /** An authorization that hands out a ticket reserved an action that was not reserved; any other one reserves
      nothing. Either way it leaves approvals alone. */
  lemma AuthorizeOutcome(cfg: Config, controls: seq<Control>, log: Log, r: PurchaseRequest, scope: TrustedScope,
                         at: int, nonce: Text)
    requires EngineCore(log)
    ensures var o := AuthorizeStep(cfg, controls, log, r, scope, at, nonce).outcome;
            var stored := LatestState(log, scope, r.actionId);
            var change := AuthorizeChange(cfg, controls, log, r, scope, at, nonce);
            && (o.Done?
                ==> && change.Some?
                    && IssuedRecord(cfg, controls, change.value.record, r, scope, at, nonce, o.value)
                    && (stored.Some? ==> stored.value.status != Reserved))
            && (change.Some? && change.value.record.status == Reserved && !o.Done?
                ==> stored.Some? && stored.value.status == Reserved)
            && (change.Some? ==> change.value.record.approvals == if stored.Some? then stored.value.approvals else [])
  {
    hide EvaluateRecord, LatestState, EngineCore, RecordCore, CurrentRecord, Record, IssuedRecord, TicketFor, Allowed;
    var o := EvaluateRecord(cfg, controls, log, r, scope, at);
    EvaluationFound(cfg, controls, log, r, scope, at);
    FoundIsSuccessor(controls, log, r, scope, at);
    if o.Done? && AuthorizeRefusal(o.value).None? && o.value.decision.digest.Some? {
      ReservedFrom(cfg, controls, CurrentRecord(controls, log, r, scope, at), r, scope, at, nonce, o.value);
    }
  }

  lemma AuthorizeStepChanges(cfg: Config, controls: seq<Control>, log: Log, r: PurchaseRequest, scope: TrustedScope,
                             at: int, nonce: Text)
    requires EngineCore(log)
    ensures var change := AuthorizeChange(cfg, controls, log, r, scope, at, nonce);
            Changed(log, AuthorizeStep(cfg, controls, log, r, scope, at, nonce).log, change) && Proper(log, change)
  {
    hide EvaluateRecord, LatestState, Changed, EngineCore, RecordCore, RecordDenial, Record, TicketFor, CurrentRecord;
    hide IssuedRecord, Allowed;
    var o := EvaluateRecord(cfg, controls, log, r, scope, at);
    EvaluationFound(cfg, controls, log, r, scope, at);
    FoundIsSuccessor(controls, log, r, scope, at);
    EvaluationChanges(cfg, controls, log, r, scope, at);
    SameLog(log);
    if o.Denied? {
      DenialChangesNothing(log, scope, r.actionId, o.reason, at);
    }
    if o.Done? {
      var e := o.value;
      var refusal := AuthorizeRefusal(e);
      if refusal.Some? {
        DenialChangesNothing(e.log, scope, r.actionId, refusal.value, at);
        ChangeThenNothing(log, e.log, RecordDenial(e.log, scope, r.actionId, refusal.value, at),
                          Some(Change(scope, r.actionId, e.record)));
      } else if e.decision.digest.Some? {
        var reserved := ReservedRecord(e.record, TicketFor(controls, e.record, e.decision, r, scope, at, nonce));
        ReservedFrom(cfg, controls, CurrentRecord(controls, log, r, scope, at), r, scope, at, nonce, e);
        RecordChanges(e.log, scope, r.actionId, reserved);
        TwoChanges(log, e.log, Record(e.log, scope, r.actionId, reserved), scope, r.actionId, e.record, reserved);
      }
    }
  }

  // ---- Every step ----------------------------------------------------------

  /** A step changes the newest state of at most one action, and leaves a proper record there. */
  lemma StepChanges(cfg: Config, s: System, step: Step)
    requires EngineCore(s.engine)
    ensures var change := StepChange(cfg, s, step);
            Changed(s.engine, Next(cfg, s, step).engine, change) && Proper(s.engine, change)
  {
    hide Changed, EngineCore, RecordCore, Successor, LatestState, EvaluateStep, ApproveStep, AuthorizeStep;
    hide ReconcileStep, CommitStep, EvaluateChange, ApproveChange, AuthorizeChange;
    SameLog(s.engine);
    match step
    case DoEvaluate(r, scope, at) => EvaluateStepChanges(cfg, s.controls, s.engine, r, scope, at);
    case DoApprove(actionId, scope, token, at, draw) =>
      ApproveStepChanges(cfg, s.controls, s.engine, actionId, scope, token, at, draw);
    case DoAuthorize(r, scope, at, nonce) => AuthorizeStepChanges(cfg, s.controls, s.engine, r, scope, at, nonce);
    case DoReconcile(r, scope, receipt, at) => ReconcileChangesNothing(cfg, s.engine, r, scope, receipt, at);
    case _ =>
  }

  /** After any steps whatever, every action's newest state is a proper record. */
  lemma {:induction false} RunCore(cfg: Config, steps: seq<Step>)
    ensures EngineCore(Run(cfg, steps).engine)
  {
    hide Next, RecordCore, Proper, StepChange, Changed;
    if steps != [] {
      var n := |steps| - 1;
      var s := Run(cfg, steps[..n]);
      RunCore(cfg, steps[..n]);
      StepChanges(cfg, s, steps[n]);
      ChangeKeepsCore(s.engine, Next(cfg, s, steps[n]).engine, StepChange(cfg, s, steps[n]));
    }
  }

  /** The newest state of an action after a step of a run, by what the step changed. */
  lemma StateAfter(cfg: Config, steps: seq<Step>, n: nat, scope: TrustedScope, actionId: string)
    requires n < |steps|
    ensures var change := StepChange(cfg, Run(cfg, steps[..n]), steps[n]);
            && EngineCore(Run(cfg, steps[..n]).engine)
            && Proper(Run(cfg, steps[..n]).engine, change)
            && StateAt(cfg, steps, n + 1, scope, actionId)
               == if Concerning(change, scope, actionId) then Some(change.value.record)
                  else StateAt(cfg, steps, n, scope, actionId)
  {
    hide Next, EngineCore, Proper, StepChange, LatestState, Run;
    RunCore(cfg, steps[..n]);
    StepChanges(cfg, Run(cfg, steps[..n]), steps[n]);
    RunStep(cfg, steps, n);
  }
}
