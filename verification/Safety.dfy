/** What holds in every possible run of the purchase protocol, under whatever controls the engine is started with. */
module Safety {
  import opened Wrappers
  import opened Contracts
  import opened Ledgers
  import opened Policy
  import opened Tickets
  import opened Engine
  import opened Target
  import opened Protocol

  // ---- The joint invariant -------------------------------------------------

  /** The ticket payload is the reservation of its action. */
  predicate Held(log: Log, p: TicketPayload) {
    var record := LatestState(log, p.scope, p.actionId);
    record.Some? && record.value.reservation == Some(p)
  }

  /** The evidence matches the reservation of its action: request, nonce, amount, and a commit inside the window. */
  predicate Backed(log: Log, e: Evidence) {
    var record := LatestState(log, e.scope, e.actionId);
    && record.Some? && record.value.reservation.Some?
    && var p := record.value.reservation.value;
       && e.requestDigest == RequestDigest(record.value.request)
       && e.nonce == p.nonce
       && e.amountMinor == record.value.request.amountMinor
       && p.issuedAt <= e.committedAt < p.expiresAt
       && e.status == "committed"
  }

  predicate PurchaseEvent(cfg: Config, engine: Log, event: Event<ReceiptClaim>) {
    var e := event.payload.evidence;
    && event.kind == PURCHASE && event.scope == ScopeKey(e.scope) && event.actionId == e.actionId
    && event.payload == SignEvidence(e, cfg.ticketSecret)
    && Backed(engine, e)
  }

  ghost predicate TicketsSound(cfg: Config, s: System) {
    forall p: TicketPayload :: Mac(cfg.ticketSecret, TicketMessage(p)) in s.macs ==> Held(s.engine, p)
  }

  ghost predicate EvidenceSound(cfg: Config, s: System) {
    forall e: Evidence :: Mac(cfg.ticketSecret, EvidenceMessage(e)) in s.macs
      ==> PurchaseOf(s.target, e.scope, e.actionId) == Some(SignEvidence(e, cfg.ticketSecret))
  }

  predicate TargetSound(cfg: Config, s: System) {
    && (forall k :: 0 <= k < |s.target| ==> PurchaseEvent(cfg, s.engine, s.target[k]))
    && forall j, k :: 0 <= j < k < |s.target| ==>
         s.target[j].scope != s.target[k].scope || s.target[j].actionId != s.target[k].actionId
  }

  /** The joint invariant. */
  ghost predicate Sound(cfg: Config, s: System) {
    EngineCore(s.engine) && TicketsSound(cfg, s) && EvidenceSound(cfg, s) && TargetSound(cfg, s)
  }

  lemma SoundParts(cfg: Config, s: System)
    requires Sound(cfg, s)
    ensures EngineCore(s.engine) && TicketsSound(cfg, s) && EvidenceSound(cfg, s) && TargetSound(cfg, s)
  {
  }

  // ---- Reservations stay ---------------------------------------------------

  /** Reservations survive a change of the engine log. */
  ghost predicate ReservationsKept(log: Log, log': Log) {
    forall scope, actionId ::
      LatestState(log, scope, actionId).Some? && LatestState(log, scope, actionId).value.status == Reserved
      ==> && LatestState(log', scope, actionId).Some?
          && LatestState(log', scope, actionId).value.status == Reserved
          && LatestState(log', scope, actionId).value.reservation == LatestState(log, scope, actionId).value.reservation
          && LatestState(log', scope, actionId).value.request == LatestState(log, scope, actionId).value.request
  }

  lemma StepKeepsReservations(cfg: Config, s: System, step: Step)
    requires EngineCore(s.engine)
    ensures ReservationsKept(s.engine, Next(cfg, s, step).engine)
  {
    hide LatestState, RecordCore, Next, StepChange, EngineCore;
    StepChanges(cfg, s, step);
  }

  /** "Reserved" is permanent: the reservation and its request stay through everything that follows, restarts under
      other controls included. */
  lemma {:induction false} ReservedForever(cfg: Config, steps: seq<Step>, i: nat, n: nat, scope: TrustedScope,
                                           actionId: string)
    requires i <= n <= |steps|
    requires var before := StateAt(cfg, steps, i, scope, actionId); before.Some? && before.value.status == Reserved
    ensures var before := StateAt(cfg, steps, i, scope, actionId).value;
            var after := StateAt(cfg, steps, n, scope, actionId);
            && after.Some? && after.value.status == Reserved
            && after.value.reservation == before.reservation && after.value.request == before.request
    decreases n - i
  {
    hide Next, Run, LatestState, EngineCore;
    if i < n {
      RunCore(cfg, steps[..i]);
      StepKeepsReservations(cfg, Run(cfg, steps[..i]), steps[i]);
      RunStep(cfg, steps, i);
      ReservedForever(cfg, steps, i + 1, n, scope, actionId);
    }
  }

  /** The record of an issued ticket at the moment of issue: reserved by this very ticket, not reserved before, and the
      ticket within its limits. */
  lemma IssueState(cfg: Config, steps: seq<Step>, i: nat, ticket: TicketText) returns (record: StateRecord)
    requires Issued(cfg, steps, i, ticket)
    ensures steps[i].DoAuthorize?
    ensures var before := StateAt(cfg, steps, i, steps[i].scope, steps[i].r.actionId);
            && (before.Some? ==> before.value.status != Reserved)
            && record.approvals == if before.Some? then before.value.approvals else []
    ensures StateAt(cfg, steps, i + 1, steps[i].scope, steps[i].r.actionId) == Some(record)
    ensures RecordCore(steps[i].scope, steps[i].r.actionId, record)
    ensures IssuedRecord(cfg, Run(cfg, steps[..i]).controls, record, steps[i].r, steps[i].scope, steps[i].at,
                         steps[i].nonce, ticket)
  {
    hide Run, LatestState, EngineCore, AuthorizeStep, IssuedRecord, AuthorizeChange, RecordCore;
    var s := Run(cfg, steps[..i]);
    StateAfter(cfg, steps, i, steps[i].scope, steps[i].r.actionId);
    AuthorizeOutcome(cfg, s.controls, s.engine, steps[i].r, steps[i].scope, steps[i].at, steps[i].nonce);
    assert AuthorizeChange(cfg, s.controls, s.engine, steps[i].r, steps[i].scope, steps[i].at, steps[i].nonce)
           == StepChange(cfg, s, steps[i]);
    AuthorizeConcerns(cfg, s.controls, s.engine, steps[i].r, steps[i].scope, steps[i].at, steps[i].nonce);
    record := StepChange(cfg, s, steps[i]).value.record;
  }

  lemma AuthorizeConcerns(cfg: Config, controls: seq<Control>, log: Log, r: PurchaseRequest, scope: TrustedScope,
                          at: int, nonce: Text)
    ensures var change := AuthorizeChange(cfg, controls, log, r, scope, at, nonce);
            change.Some? ==> Concerning(change, scope, r.actionId)
  {
    hide EvaluateRecord, TicketFor, AuthorizeRefusal, ReservedRecord;
  }

  /** In every run at most one ticket is issued for an action of a scope. */
  lemma OneTicketPerAction(cfg: Config, steps: seq<Step>, i: nat, ticket: TicketText, j: nat, ticket': TicketText)
    requires Issued(cfg, steps, i, ticket) && Issued(cfg, steps, j, ticket')
    requires steps[i].scope == steps[j].scope && steps[i].r.actionId == steps[j].r.actionId
    ensures i == j && ticket == ticket'
  {
    hide Issued;
    IssuedIsAuthorize(cfg, steps, i, ticket);
    IssuedIsAuthorize(cfg, steps, j, ticket');
    if i < j {
      SecondTicketImpossible(cfg, steps, i, ticket, j, ticket');
    } else if j < i {
      SecondTicketImpossible(cfg, steps, j, ticket', i, ticket);
    } else {
      assert ticket == ticket' by { OneOutcome(cfg, steps, i, ticket, ticket'); }
    }
  }

  lemma OneOutcome(cfg: Config, steps: seq<Step>, i: nat, ticket: TicketText, ticket': TicketText)
    requires Issued(cfg, steps, i, ticket) && Issued(cfg, steps, i, ticket')
    ensures ticket == ticket'
  {
    hide Run, AuthorizeStep;
  }

  lemma SecondTicketImpossible(cfg: Config, steps: seq<Step>, i: nat, ticket: TicketText, j: nat, ticket': TicketText)
    requires Issued(cfg, steps, i, ticket) && i < j < |steps|
    requires steps[j].DoAuthorize? && steps[i].scope == steps[j].scope && steps[i].r.actionId == steps[j].r.actionId
    ensures !Issued(cfg, steps, j, ticket')
  {
    hide StateAt, Issued, RecordCore, Names, Allowed;
    var first := IssueState(cfg, steps, i, ticket);
    ReservedForever(cfg, steps, i + 1, j, steps[i].scope, steps[i].r.actionId);
    if Issued(cfg, steps, j, ticket') {
      var second := IssueState(cfg, steps, j, ticket');
      assert false;
    }
  }

  // ---- The first sight of an action ----------------------------------------

  /** The j-th step was the first to record the action: this request, at this time, under these controls. */
  predicate FirstSeenAt(cfg: Config, steps: seq<Step>, j: nat, scope: TrustedScope, r: PurchaseRequest, at: int) {
    && j < |steps| && (steps[j].DoEvaluate? || steps[j].DoAuthorize?)
    && steps[j].r == r && steps[j].scope == scope && steps[j].at == at
    && StateAt(cfg, steps, j, scope, r.actionId).None? && StateAt(cfg, steps, j + 1, scope, r.actionId).Some?
  }

  /** A record of a new action is made by an evaluation, for its request and under the controls in force. */
  lemma NewAction(cfg: Config, s: System, step: Step)
    requires EngineCore(s.engine) && StepChange(cfg, s, step).Some?
    requires var change := StepChange(cfg, s, step).value; LatestState(s.engine, change.scope, change.actionId).None?
    ensures step.DoEvaluate? || step.DoAuthorize?
    ensures var change := StepChange(cfg, s, step).value;
            && change.scope == step.scope && change.actionId == step.r.actionId
            && change.record.request == step.r && change.record.firstSeen == step.at
            && change.record.policyDigest == PolicyDigest(s.controls)
  {
    hide EvaluateRecord, LatestState, EngineCore, CurrentRecord, RecordCore, TicketFor, Record, AuthorizeRefusal;
    hide ApprovedRecord, ApprovalBasis, PolicyDigest;
    match step
    case DoEvaluate(r, scope, at) =>
      EvaluationFound(cfg, s.controls, s.engine, r, scope, at);
      FoundIsSuccessor(s.controls, s.engine, r, scope, at);
    case DoAuthorize(r, scope, at, _) =>
      EvaluationFound(cfg, s.controls, s.engine, r, scope, at);
      FoundIsSuccessor(s.controls, s.engine, r, scope, at);
    case _ =>
  }

  /** In every run, the newest state of an action keeps request, time and controls of its first sight. */
  lemma {:induction false} FirstSight(cfg: Config, steps: seq<Step>, n: nat, scope: TrustedScope, actionId: string)
    returns (j: nat)
    requires n <= |steps| && StateAt(cfg, steps, n, scope, actionId).Some?
    ensures var record := StateAt(cfg, steps, n, scope, actionId).value;
            && j < n && FirstSeenAt(cfg, steps, j, scope, record.request, record.firstSeen)
            && record.request.actionId == actionId
            && record.policyDigest == PolicyDigest(Run(cfg, steps[..j]).controls)
  {
    hide StateAt, FirstSeenAt, StepChange, EngineCore, RecordCore, Run, PolicyDigest;
    if n == 0 {
      NothingAtStart(cfg, steps, scope, actionId);
    } else {
      StateAfter(cfg, steps, n - 1, scope, actionId);
      if StateAt(cfg, steps, n - 1, scope, actionId).Some? {
        j := FirstSight(cfg, steps, n - 1, scope, actionId);
        SightKept(cfg, steps, n, scope, actionId);
      } else {
        j := n - 1;
        SeenNow(cfg, steps, j, scope, actionId);
      }
    }
  }

  lemma SightKept(cfg: Config, steps: seq<Step>, n: nat, scope: TrustedScope, actionId: string)
    requires 0 < n <= |steps| && StateAt(cfg, steps, n - 1, scope, actionId).Some?
    ensures var before, after := StateAt(cfg, steps, n - 1, scope, actionId), StateAt(cfg, steps, n, scope, actionId);
            && after.Some? && after.value.request == before.value.request
            && after.value.firstSeen == before.value.firstSeen && after.value.policyDigest == before.value.policyDigest
  {
    hide StepChange, EngineCore, RecordCore, Run, LatestState;
    StateAfter(cfg, steps, n - 1, scope, actionId);
  }

  lemma SeenNow(cfg: Config, steps: seq<Step>, j: nat, scope: TrustedScope, actionId: string)
    requires j < |steps| && StateAt(cfg, steps, j, scope, actionId).None?
    requires StateAt(cfg, steps, j + 1, scope, actionId).Some?
    ensures var record := StateAt(cfg, steps, j + 1, scope, actionId).value;
            && FirstSeenAt(cfg, steps, j, scope, record.request, record.firstSeen)
            && record.request.actionId == actionId
            && record.policyDigest == PolicyDigest(Run(cfg, steps[..j]).controls)
  {
    hide StepChange, EngineCore, RecordCore, Run, LatestState, PolicyDigest;
    StateAfter(cfg, steps, j, scope, actionId);
    NewAction(cfg, Run(cfg, steps[..j]), steps[j]);
  }

  /** The j-th step saw the action of the i-th step first: its request, less than 300 seconds before, under the same
      controls, and those are the ones the ticket names. */
  predicate SeenForTicket(cfg: Config, steps: seq<Step>, j: nat, i: nat, ticket: TicketText) {
    && j <= i < |steps| && steps[i].DoAuthorize? && ticket.SignedTicket?
    && (steps[j].DoEvaluate? || steps[j].DoAuthorize?)
    && FirstSeenAt(cfg, steps, j, steps[i].scope, steps[i].r, steps[j].at)
    && steps[j].at <= steps[i].at < steps[j].at + ACTION_WINDOW
    && Run(cfg, steps[..j]).controls == Run(cfg, steps[..i]).controls
    && ticket.payload.policyDigest == PolicyDigest(Run(cfg, steps[..j]).controls)
  }

  /** In every run, a ticket is issued under the very controls that saw its action first. Restarts with other controls
      in between change nothing. */
  lemma TicketKeepsPolicy(cfg: Config, steps: seq<Step>, i: nat, ticket: TicketText) returns (j: nat)
    requires Issued(cfg, steps, i, ticket)
    ensures SeenForTicket(cfg, steps, j, i, ticket)
  {
    hide StateAt, FirstSeenAt, Run, Issued, RecordCore, Allowed;
    IssuedIsAuthorize(cfg, steps, i, ticket);
    var record := IssueState(cfg, steps, i, ticket);
    j := FirstSight(cfg, steps, i + 1, steps[i].scope, steps[i].r.actionId);
    SeenStep(cfg, steps, j, steps[i].scope, record.request, record.firstSeen);
  }

  lemma SeenStep(cfg: Config, steps: seq<Step>, j: nat, scope: TrustedScope, r: PurchaseRequest, at: int)
    requires FirstSeenAt(cfg, steps, j, scope, r, at)
    ensures j < |steps| && (steps[j].DoEvaluate? || steps[j].DoAuthorize?) && steps[j].at == at
  {
    hide StateAt;
  }

  // ---- Engine steps --------------------------------------------------------

  lemma HeldIsReserved(log: Log, scope: TrustedScope, actionId: string)
    requires EngineCore(log)
    requires LatestState(log, scope, actionId).Some? && LatestState(log, scope, actionId).value.reservation.Some?
    ensures LatestState(log, scope, actionId).value.status == Reserved
  {
    hide LatestState, MakeIntent, Names, EngineCore;
    CoreRecord(log, scope, actionId);
  }

  lemma KeptHeld(log: Log, log': Log, p: TicketPayload)
    requires EngineCore(log) && ReservationsKept(log, log') && Held(log, p)
    ensures Held(log', p)
  {
    hide LatestState, EngineCore;
    HeldIsReserved(log, p.scope, p.actionId);
  }

  lemma KeptBacked(log: Log, log': Log, e: Evidence)
    requires EngineCore(log) && ReservationsKept(log, log') && Backed(log, e)
    ensures Backed(log', e)
  {
    hide LatestState, EngineCore, RequestDigest;
    HeldIsReserved(log, e.scope, e.actionId);
  }

  /** A step on the engine log alone, releasing no MAC, keeps the invariant. */
  lemma QuietEngineStep(cfg: Config, s: System, log': Log)
    requires Sound(cfg, s) && EngineCore(log') && ReservationsKept(s.engine, log')
    ensures Sound(cfg, s.(engine := log'))
  {
    hide EngineCore, ReservationsKept, Held, Backed, LatestState;
    forall p: TicketPayload | Mac(cfg.ticketSecret, TicketMessage(p)) in s.macs
      ensures Held(log', p)
    {
      KeptHeld(s.engine, log', p);
    }
    forall k | 0 <= k < |s.target|
      ensures PurchaseEvent(cfg, log', s.target[k])
    {
      KeptBacked(s.engine, log', s.target[k].payload.evidence);
    }
  }

  /** Releasing the MAC of a ticket whose payload is held keeps the invariant. */
  lemma ReleaseTicket(cfg: Config, s: System, p: TicketPayload)
    requires Sound(cfg, s) && Held(s.engine, p)
    ensures Sound(cfg, s.(macs := s.macs + {Mac(cfg.ticketSecret, TicketMessage(p))}))
  {
    hide EngineCore, Held, PurchaseEvent;
  }

  lemma EngineStepKeepsCore(cfg: Config, s: System, step: Step)
    requires EngineCore(s.engine)
    ensures EngineCore(Next(cfg, s, step).engine) && ReservationsKept(s.engine, Next(cfg, s, step).engine)
  {
    hide EngineCore, Changed, Proper, ReservationsKept, Next, StepChange;
    StepChanges(cfg, s, step);
    ChangeKeepsCore(s.engine, Next(cfg, s, step).engine, StepChange(cfg, s, step));
    StepKeepsReservations(cfg, s, step);
  }

  /** The ticket an authorization hands out is held by the state it leaves. */
  lemma IssuedIsHeld(cfg: Config, s: System, r: PurchaseRequest, scope: TrustedScope, at: int, nonce: Text)
    requires EngineCore(s.engine)
    requires AuthorizeStep(cfg, s.controls, s.engine, r, scope, at, nonce).outcome.Done?
    ensures var e := AuthorizeStep(cfg, s.controls, s.engine, r, scope, at, nonce);
            && e.outcome.value.SignedTicket? && Held(e.log, e.outcome.value.payload)
            && e.outcome.value.mac == Mac(cfg.ticketSecret, TicketMessage(e.outcome.value.payload))
  {
    hide EngineCore, AuthorizeStep, AuthorizeChange, LatestState, RecordCore, Allowed, RequestDigest;
    AuthorizeStepChanges(cfg, s.controls, s.engine, r, scope, at, nonce);
    AuthorizeOutcome(cfg, s.controls, s.engine, r, scope, at, nonce);
    AuthorizeConcerns(cfg, s.controls, s.engine, r, scope, at, nonce);
    var change := AuthorizeChange(cfg, s.controls, s.engine, r, scope, at, nonce).value;
    assert change.scope == scope && change.actionId == r.actionId;
    var e := AuthorizeStep(cfg, s.controls, s.engine, r, scope, at, nonce);
    ChangedTo(s.engine, e.log, scope, r.actionId, change.record);
  }

  // ---- Target steps --------------------------------------------------------

  /** In a sound target log the newest purchase of an action is its only one. */
  lemma {:induction false} OnlyPurchase(target: TargetLog, k: nat, scope: TrustedScope, actionId: string)
    requires k < |target| && target[k].scope == ScopeKey(scope) && target[k].actionId == actionId
    requires target[k].kind == PURCHASE
    requires forall j :: k < j < |target|
               ==> target[j].scope != target[k].scope || target[j].actionId != target[k].actionId
    ensures PurchaseOf(target, scope, actionId) == Some(target[k].payload)
  {
    if k < |target| - 1 {
      OnlyPurchase(target[..|target| - 1], k, scope, actionId);
    }
  }

  lemma {:induction false} PurchaseHasEvent(target: TargetLog, scope: TrustedScope, actionId: string) returns (k: nat)
    requires PurchaseOf(target, scope, actionId).Some?
    ensures k < |target| && target[k].scope == ScopeKey(scope) && target[k].actionId == actionId
    ensures target[k].payload == PurchaseOf(target, scope, actionId).value
  {
    var n := |target| - 1;
    if Concerns(target[n], ScopeKey(scope), actionId, PURCHASE) {
      k := n;
    } else {
      k := PurchaseHasEvent(target[..n], scope, actionId);
    }
  }

  /** The recorded purchase of an action is genuine, about that action, and backed by its reservation. */
  lemma PurchaseIsBacked(cfg: Config, s: System, scope: TrustedScope, actionId: string)
    requires TargetSound(cfg, s) && PurchaseOf(s.target, scope, actionId).Some?
    ensures var c := PurchaseOf(s.target, scope, actionId).value;
            && c == SignEvidence(c.evidence, cfg.ticketSecret)
            && c.evidence.scope == scope && c.evidence.actionId == actionId
            && Backed(s.engine, c.evidence)
  {
    hide Backed, Latest;
    var k := PurchaseHasEvent(s.target, scope, actionId);
    assert PurchaseEvent(cfg, s.engine, s.target[k]);
    ScopeKeyInjective(scope, s.target[k].payload.evidence.scope);
  }

  /** A ticket the target accepts is the reservation of exactly the presented request. */
  lemma AcceptedTicketIsHeld(cfg: Config, s: System, r: PurchaseRequest, ticket: TicketText, at: int)
    requires Sound(cfg, s) && Possible(cfg, s, DoCommit(r, ticket, at))
    requires var binding := VerifyTicket(ticket, cfg.ticketSecret); TicketRefusal(binding, r, at).None?
    ensures var binding := VerifyTicket(ticket, cfg.ticketSecret);
            && binding.Some?
            && Backed(s.engine, EvidenceFor(r, binding.value.scope, binding.value.nonce, at))
  {
    hide LatestState, RequestDigest, MakeIntent, EngineCore;
    var p := VerifyTicket(ticket, cfg.ticketSecret).value;
    assert Held(s.engine, p);
    var record := LatestState(s.engine, p.scope, p.actionId).value;
    CoreRecord(s.engine, p.scope, p.actionId);
    RequestDigestInjective(r, record.request);
  }

  lemma CommitKeepsSound(cfg: Config, s: System, r: PurchaseRequest, ticket: TicketText, at: int)
    requires Sound(cfg, s) && Possible(cfg, s, DoCommit(r, ticket, at))
    ensures Sound(cfg, Next(cfg, s, DoCommit(r, ticket, at)))
  {
    hide Sound, Backed, VerifyTicket, TicketRefusal, PurchaseOf, EvidenceFor, SignEvidence;
    var binding := VerifyTicket(ticket, cfg.ticketSecret);
    if TicketRefusal(binding, r, at).None? {
      AcceptedTicketIsHeld(cfg, s, r, ticket, at);
      var scope, nonce := binding.value.scope, binding.value.nonce;
      var previous := PurchaseOf(s.target, scope, r.actionId);
      if previous.None? {
        AddPurchase(cfg, s, r, scope, nonce, at);
      } else {
        SoundParts(cfg, s);
        PurchaseIsBacked(cfg, s, scope, r.actionId);
        ReleaseEvidence(cfg, s, previous.value.evidence);
      }
    }
  }

  /** Releasing the MAC of recorded evidence keeps the invariant. */
  lemma ReleaseEvidence(cfg: Config, s: System, e: Evidence)
    requires Sound(cfg, s)
    requires PurchaseOf(s.target, e.scope, e.actionId) == Some(SignEvidence(e, cfg.ticketSecret))
    ensures var c := SignEvidence(e, cfg.ticketSecret);
            c.mac.Some? && Sound(cfg, s.(macs := s.macs + {c.mac.value}))
  {
    hide EngineCore, PurchaseEvent, PurchaseOf, Held;
  }

  /** Recording the first purchase of a reserved action and releasing its evidence keeps the invariant. */
  lemma AddPurchase(cfg: Config, s: System, r: PurchaseRequest, scope: TrustedScope, nonce: Text,
                    at: int)
    requires Sound(cfg, s) && PurchaseOf(s.target, scope, r.actionId).None?
    requires Backed(s.engine, EvidenceFor(r, scope, nonce, at))
    ensures var receipt := SignEvidence(EvidenceFor(r, scope, nonce, at), cfg.ticketSecret);
            && receipt.mac.Some?
            && Sound(cfg, s.(target := Append(s.target, ScopeKey(scope), r.actionId, PURCHASE, receipt),
                             macs := s.macs + {receipt.mac.value}))
  {
    hide EngineCore, Backed, Held, PurchaseOf, TicketsSound;
    var e := EvidenceFor(r, scope, nonce, at);
    var receipt := SignEvidence(e, cfg.ticketSecret);
    var target' := Append(s.target, ScopeKey(scope), r.actionId, PURCHASE, receipt);
    TargetGrows(cfg, s, r.actionId, scope, receipt);
    var s' := s.(target := target');
    assert Sound(cfg, s') by {
      assert TicketsSound(cfg, s') by { SameTickets(cfg, s, s'); }
      assert EvidenceSound(cfg, s') by { EvidenceSurvives(cfg, s, scope, r.actionId, receipt); }
    }
    NewPurchaseFound(s.target, scope, r.actionId, receipt);
    ReleaseEvidence(cfg, s', e);
  }

  lemma SameTickets(cfg: Config, s: System, s': System)
    requires TicketsSound(cfg, s) && s'.engine == s.engine && s'.macs == s.macs
    ensures TicketsSound(cfg, s')
  {
  }

  lemma NewPurchaseFound(target: TargetLog, scope: TrustedScope, actionId: string, receipt: ReceiptClaim)
    ensures PurchaseOf(Append(target, ScopeKey(scope), actionId, PURCHASE, receipt), scope, actionId) == Some(receipt)
  {
    LatestAfterAppend(target, ScopeKey(scope), actionId, PURCHASE, receipt, ScopeKey(scope), actionId, PURCHASE);
  }

  lemma EvidenceSurvives(cfg: Config, s: System, scope: TrustedScope, actionId: string, receipt: ReceiptClaim)
    requires EvidenceSound(cfg, s) && PurchaseOf(s.target, scope, actionId).None?
    ensures EvidenceSound(cfg, s.(target := Append(s.target, ScopeKey(scope), actionId, PURCHASE, receipt)))
  {
    hide Latest;
    forall e: Evidence | Mac(cfg.ticketSecret, EvidenceMessage(e)) in s.macs
      ensures PurchaseOf(Append(s.target, ScopeKey(scope), actionId, PURCHASE, receipt), e.scope, e.actionId)
              == Some(SignEvidence(e, cfg.ticketSecret))
    {
      LatestAfterAppend(s.target, ScopeKey(scope), actionId, PURCHASE, receipt, ScopeKey(e.scope), e.actionId,
                        PURCHASE);
      if ScopeKey(e.scope) == ScopeKey(scope) {
        ScopeKeyInjective(e.scope, scope);
      }
    }
  }

  lemma TargetGrows(cfg: Config, s: System, actionId: string, scope: TrustedScope, receipt: ReceiptClaim)
    requires TargetSound(cfg, s) && PurchaseOf(s.target, scope, actionId).None?
    requires receipt == SignEvidence(receipt.evidence, cfg.ticketSecret)
    requires receipt.evidence.scope == scope && receipt.evidence.actionId == actionId
    requires Backed(s.engine, receipt.evidence)
    ensures TargetSound(cfg, s.(target := Append(s.target, ScopeKey(scope), actionId, PURCHASE, receipt)))
  {
    hide Backed, Latest;
    forall k | 0 <= k < |s.target|
      ensures s.target[k].scope != ScopeKey(scope) || s.target[k].actionId != actionId
    {
      if s.target[k].scope == ScopeKey(scope) && s.target[k].actionId == actionId {
        assert PurchaseEvent(cfg, s.engine, s.target[k]);
        OnlyPurchase(s.target, k, scope, actionId);
      }
    }
  }

  // ---- Every run -----------------------------------------------------------

  lemma StepKeepsSound(cfg: Config, s: System, step: Step)
    requires Sound(cfg, s) && Possible(cfg, s, step)
    ensures Sound(cfg, Next(cfg, s, step))
  {
    hide Sound, EngineCore, EvaluateStep, ApproveStep, ReconcileStep, AuthorizeStep, CommitStep, Possible, Held;
    hide ReservationsKept;
    assert EngineCore(s.engine) by { SoundParts(cfg, s); }
    var log' := Next(cfg, s, step).engine;
    EngineStepKeepsCore(cfg, s, step);
    QuietEngineStep(cfg, s, log');
    match step
    case DoAuthorize(r, scope, at, nonce) =>
      var e := AuthorizeStep(cfg, s.controls, s.engine, r, scope, at, nonce);
      if e.outcome.Done? {
        IssuedIsHeld(cfg, s, r, scope, at, nonce);
        ReleaseTicket(cfg, s.(engine := log'), e.outcome.value.payload);
      }
    case DoCommit(r, ticket, at) => CommitKeepsSound(cfg, s, r, ticket, at);
    case DoRestart(controls) => ControlsDoNotMatter(cfg, s, controls);
    case _ =>
  }

  lemma ControlsDoNotMatter(cfg: Config, s: System, controls: seq<Control>)
    requires Sound(cfg, s)
    ensures Sound(cfg, s.(controls := controls))
  {
    hide EngineCore, Held, PurchaseEvent, PurchaseOf;
  }

  lemma StartIsSound(cfg: Config)
    ensures Sound(cfg, START)
  {
    hide RecordCore;
    RunCore(cfg, []);
  }

  /** The joint invariant of engine, tickets, evidence and target holds after every possible run. */
  lemma {:induction false} RunSound(cfg: Config, steps: seq<Step>)
    requires PossibleRun(cfg, steps)
    ensures Sound(cfg, Run(cfg, steps))
  {
    hide Sound, Next, Possible;
    if steps == [] {
      StartIsSound(cfg);
    } else {
      var n := |steps| - 1;
      PrefixPossible(cfg, steps, n);
      RunSound(cfg, steps[..n]);
      StepKeepsSound(cfg, Run(cfg, steps[..n]), steps[n]);
    }
  }

  lemma RunSoundAt(cfg: Config, steps: seq<Step>, i: nat)
    requires PossibleRun(cfg, steps) && i <= |steps|
    ensures Sound(cfg, Run(cfg, steps[..i]))
  {
    hide Sound, Run, PossibleRun;
    PrefixPossible(cfg, steps, i);
    RunSound(cfg, steps[..i]);
  }

  // ---- Reconciliation ------------------------------------------------------

  /** Genuine evidence that can be presented is the purchase of its action, backed by the reservation. */
  lemma PresentedEvidence(cfg: Config, s: System, c: ReceiptClaim)
    requires Sound(cfg, s) && GenuineEvidence(c, cfg.ticketSecret)
    requires c.mac.Some? ==> Presentable(cfg, s, c.mac.value)
    ensures PurchaseOf(s.target, c.evidence.scope, c.evidence.actionId) == Some(c)
    ensures Backed(s.engine, c.evidence)
  {
    hide EngineCore, TargetSound, TicketsSound, Backed, PurchaseOf;
    PurchaseIsBacked(cfg, s, c.evidence.scope, c.evidence.actionId);
  }

  /** Reconciliation succeeds only if the target committed exactly the reserved request: same scope, request, amount
      and nonce, inside the reservation's window. */
  lemma ReconcileIsSound(cfg: Config, steps: seq<Step>, r: PurchaseRequest, scope: TrustedScope,
                         receipt: Option<ReceiptClaim>, at: int)
    requires PossibleRun(cfg, steps)
    requires Possible(cfg, Run(cfg, steps), DoReconcile(r, scope, receipt, at))
    requires ReconcileStep(cfg, Run(cfg, steps).engine, r, scope, receipt, at).1
    ensures var s := Run(cfg, steps);
            var record := LatestState(s.engine, scope, r.actionId);
            && receipt.Some? && record.Some? && record.value.reservation.Some?
            && record.value.request == r
            && PurchaseOf(s.target, scope, r.actionId) == receipt
            && receipt.value.evidence.amountMinor == r.amountMinor
            && receipt.value.evidence.nonce == record.value.reservation.value.nonce
            && record.value.reservation.value.issuedAt <= receipt.value.evidence.committedAt
               < record.value.reservation.value.expiresAt
  {
    hide Sound, Run, PossibleRun, LatestState, PurchaseOf, RequestDigest, GenuineEvidence, RecordCore, EngineCore;
    var s := Run(cfg, steps);
    var e := receipt.value.evidence;
    RunSound(cfg, steps);
    SoundParts(cfg, s);
    PresentedEvidence(cfg, s, receipt.value);
    var record := LatestState(s.engine, e.scope, e.actionId).value;
    RequestDigestInjective(record.request, r);
    CoreRecord(s.engine, e.scope, e.actionId);
    CoreIdentity(e.scope, e.actionId, record);
  }
}
