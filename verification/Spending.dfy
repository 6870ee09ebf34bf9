/** Purchases come from tickets, one for one: what the target spends stays within what the engine reserved, under any
    controls. */
module Spending {
  import opened Contracts
  import opened Grants
  import opened Ordering
  import opened Policy
  import opened Tickets
  import opened Engine
  import opened Target
  import opened Protocol
  import opened Safety

  // ---- Reservations come from issued tickets -------------------------------

  predicate ReservedAt(cfg: Config, steps: seq<Step>, n: nat, scope: TrustedScope, actionId: string)
    requires n <= |steps|
  {
    var record := StateAt(cfg, steps, n, scope, actionId);
    record.Some? && record.value.status == Reserved
  }

  /** The i-th step issued the ticket of the action's reservation, for the reserved request. */
  predicate IssuedBy(cfg: Config, steps: seq<Step>, i: nat, record: StateRecord) {
    && record.reservation.Some? && Issued(cfg, steps, i, SignTicket(record.reservation.value, cfg.ticketSecret))
    && steps[i].scope == record.scope && steps[i].r == record.request
  }

  lemma OnlyAuthorizationReserves(cfg: Config, s: System, step: Step)
    requires EngineCore(s.engine) && StepChange(cfg, s, step).Some?
    requires var change := StepChange(cfg, s, step).value;
             var before := LatestState(s.engine, change.scope, change.actionId);
             change.record.status == Reserved && (before.Some? ==> before.value.status != Reserved)
    ensures step.DoAuthorize?
            && AuthorizeStep(cfg, s.controls, s.engine, step.r, step.scope, step.at, step.nonce).outcome.Done?
  {
    hide EvaluateRecord, LatestState, EngineCore, CurrentRecord, RecordCore, TicketFor, Record, AuthorizeChange;
    hide ApprovedRecord, ApprovalBasis, PolicyDigest, AuthorizeStep, Allowed, Changed, AgentId, Decides, IssuedRecord;
    match step
    case DoEvaluate(r, scope, at) =>
      EvaluationFound(cfg, s.controls, s.engine, r, scope, at);
      FoundIsSuccessor(s.controls, s.engine, r, scope, at);
    case DoApprove(actionId, scope, token, at, draw) =>
      ApprovalReservesNothing(cfg, s.controls, s.engine, actionId, scope, token, at, draw);
    case DoAuthorize(r, scope, at, nonce) =>
      AuthorizeOutcome(cfg, s.controls, s.engine, r, scope, at, nonce);
      AuthorizeConcerns(cfg, s.controls, s.engine, r, scope, at, nonce);
    case _ =>
  }

  lemma ApprovalReservesNothing(cfg: Config, controls: seq<Control>, log: Log, actionId: string, scope: TrustedScope,
                                token: string, at: int, draw: nat)
    requires EngineCore(log) && ApproveChange(cfg, controls, log, actionId, scope, token, at, draw).Some?
    ensures ApproveChange(cfg, controls, log, actionId, scope, token, at, draw).value.record.status == Approved
  {
    hide EvaluateRecord, LatestState, EngineCore, CurrentRecord, RecordCore, Record, OperatorFacts, ApprovalBasis;
    hide PolicyDigest, Changed, AgentId, Decides;
    var stored := LatestState(log, scope, actionId);
    ApprovedFrom(cfg, controls, log, actionId, scope, token, at, draw);
    var approved := ApprovedRecord(cfg, stored.value, at, draw);
    var recorded := Record(log, scope, actionId, approved);
    EvaluationFound(cfg, controls, recorded, approved.request, scope, at);
    FoundIsSuccessor(controls, recorded, approved.request, scope, at);
  }

  /** A step that reserves an action issued its ticket. */
  lemma NewReservationIsIssued(cfg: Config, steps: seq<Step>, n: nat, scope: TrustedScope, actionId: string)
    requires n < |steps|
    requires ReservedAt(cfg, steps, n + 1, scope, actionId) && !ReservedAt(cfg, steps, n, scope, actionId)
    ensures IssuedBy(cfg, steps, n, StateAt(cfg, steps, n + 1, scope, actionId).value)
  {
    hide EngineCore, LatestState, Run, RecordCore, AuthorizeStep, Next, StepChange, Names, Allowed, RequestDigest;
    StateAfter(cfg, steps, n, scope, actionId);
    OnlyAuthorizationReserves(cfg, Run(cfg, steps[..n]), steps[n]);
    AuthorizationConcerns(cfg, Run(cfg, steps[..n]), steps[n]);
    var s := Run(cfg, steps[..n]);
    var e := AuthorizeStep(cfg, s.controls, s.engine, steps[n].r, steps[n].scope, steps[n].at, steps[n].nonce);
    var record := IssueState(cfg, steps, n, e.outcome.value);
  }

  lemma AuthorizationConcerns(cfg: Config, s: System, step: Step)
    requires step.DoAuthorize? && StepChange(cfg, s, step).Some?
    ensures Concerning(StepChange(cfg, s, step), step.scope, step.r.actionId)
  {
    hide AuthorizeChange;
    AuthorizeConcerns(cfg, s.controls, s.engine, step.r, step.scope, step.at, step.nonce);
  }

  /** In every run, a reserved action got its ticket from one authorization step, for the reserved request. */
  lemma {:induction false} ReservedWasIssued(cfg: Config, steps: seq<Step>, n: nat, scope: TrustedScope,
                                             actionId: string) returns (i: nat)
    requires n <= |steps| && ReservedAt(cfg, steps, n, scope, actionId)
    ensures i < n && IssuedBy(cfg, steps, i, StateAt(cfg, steps, n, scope, actionId).value)
  {
    hide StateAt, IssuedBy;
    if n == 0 {
      NothingAtStart(cfg, steps, scope, actionId);
    } else if ReservedAt(cfg, steps, n - 1, scope, actionId) {
      i := ReservedWasIssued(cfg, steps, n - 1, scope, actionId);
      ReservedKept(cfg, steps, n, scope, actionId, i);
    } else {
      NewReservationIsIssued(cfg, steps, n - 1, scope, actionId);
      i := n - 1;
    }
  }

  lemma ReservedKept(cfg: Config, steps: seq<Step>, n: nat, scope: TrustedScope, actionId: string, i: nat)
    requires 0 < n <= |steps| && ReservedAt(cfg, steps, n - 1, scope, actionId)
    requires IssuedBy(cfg, steps, i, StateAt(cfg, steps, n - 1, scope, actionId).value)
    ensures ReservedAt(cfg, steps, n, scope, actionId)
    ensures IssuedBy(cfg, steps, i, StateAt(cfg, steps, n, scope, actionId).value)
  {
    hide LatestState, Run, Issued, SignTicket;
    ReservedForever(cfg, steps, n - 1, n, scope, actionId);
    ScopeOfState(cfg, steps, n - 1, scope, actionId);
    ScopeOfState(cfg, steps, n, scope, actionId);
  }

  lemma ScopeOfState(cfg: Config, steps: seq<Step>, n: nat, scope: TrustedScope, actionId: string)
    requires n <= |steps| && StateAt(cfg, steps, n, scope, actionId).Some?
    ensures var record := StateAt(cfg, steps, n, scope, actionId).value;
            record.scope == scope && record.request.actionId == actionId && RecordCore(scope, actionId, record)
  {
    hide LatestState, Run, EngineCore, RecordCore;
    RunCore(cfg, steps[..n]);
    CoreRecord(Run(cfg, steps[..n]).engine, scope, actionId);
    CoreIdentity(scope, actionId, StateAt(cfg, steps, n, scope, actionId).value);
  }

  // ---- Purchases come from reservations ------------------------------------

  /** The i-th step issued a ticket with the purchase's nonce, and the purchase was committed inside its window. */
  predicate IssuedCovering(cfg: Config, steps: seq<Step>, i: nat, ticket: TicketText, e: Evidence) {
    && Issued(cfg, steps, i, ticket) && ticket.SignedTicket?
    && ticket.payload.nonce == e.nonce && ticket.payload.issuedAt <= e.committedAt < ticket.payload.expiresAt
  }

  /** A purchase made under the ticket the i-th step issued: for its request, with its nonce, inside its window. */
  ghost predicate PurchasedUnder(cfg: Config, steps: seq<Step>, i: nat, e: Evidence) {
    && i < |steps| && steps[i].DoAuthorize?
    && (exists ticket :: IssuedCovering(cfg, steps, i, ticket, e))
    && steps[i].scope == e.scope && steps[i].r.actionId == e.actionId
    && e.requestDigest == RequestDigest(steps[i].r) && e.amountMinor == steps[i].r.amountMinor
  }

  /** In every possible run, under any controls, each purchase was made under one issued ticket, and no two concern the
      same action. */
  lemma PurchasesInjectIntoTickets(cfg: Config, steps: seq<Step>, k: nat) returns (i: nat)
    requires PossibleRun(cfg, steps) && k < |Run(cfg, steps).target|
    ensures var target := Run(cfg, steps).target;
            && PurchasedUnder(cfg, steps, i, target[k].payload.evidence)
            && target[k].payload == SignEvidence(target[k].payload.evidence, cfg.ticketSecret)
            && forall j :: 0 <= j < |target| && PurchasedUnder(cfg, steps, i, target[j].payload.evidence) ==> j == k
  {
    hide Sound, LatestState, Run, PossibleRun, Backed, Issued, EngineCore;
    var s := Run(cfg, steps);
    RunSound(cfg, steps);
    SoundParts(cfg, s);
    assert PurchaseEvent(cfg, s.engine, s.target[k]);
    var e := s.target[k].payload.evidence;
    i := BackedPurchase(cfg, steps, e);
    forall j | 0 <= j < |s.target| && PurchasedUnder(cfg, steps, i, s.target[j].payload.evidence)
      ensures j == k
    {
      assert PurchaseEvent(cfg, s.engine, s.target[j]);
    }
  }

  lemma BackedPurchase(cfg: Config, steps: seq<Step>, e: Evidence) returns (i: nat)
    requires Backed(Run(cfg, steps).engine, e)
    ensures PurchasedUnder(cfg, steps, i, e)
  {
    hide LatestState, Run, Issued, EngineCore, MakeIntent, RequestDigest;
    var s := Run(cfg, steps);
    var n := |steps|;
    assert steps[..n] == steps;
    RunCore(cfg, steps);
    HeldIsReserved(s.engine, e.scope, e.actionId);
    i := ReservedWasIssued(cfg, steps, n, e.scope, e.actionId);
    var record := StateAt(cfg, steps, n, e.scope, e.actionId).value;
    ScopeOfState(cfg, steps, n, e.scope, e.actionId);
    var ticket := SignTicket(record.reservation.value, cfg.ticketSecret);
    IssuedIsAuthorize(cfg, steps, i, ticket);
    assert IssuedCovering(cfg, steps, i, ticket, e);
  }

  // ---- The sum -------------------------------------------------------------

  /** One grant for each ticket a run has issued. */
  function Granted(cfg: Config, steps: seq<Step>): seq<Grant> {
    if steps == [] then []
    else
      var n := |steps| - 1;
      var s, step := Run(cfg, steps[..n]), steps[n];
      Granted(cfg, steps[..n])
      + (if step.DoAuthorize?
            && AuthorizeStep(cfg, s.controls, s.engine, step.r, step.scope, step.at, step.nonce).outcome.Done?
         then [Grant(step.scope, step.r.actionId, step.r.amountMinor)] else [])
  }

  /** One grant for each purchase the target has recorded. */
  function Charged(target: TargetLog): seq<Grant> {
    if target == [] then []
    else
      var n := |target| - 1;
      var e := target[n].payload.evidence;
      Charged(target[..n]) + [Grant(e.scope, e.actionId, e.amountMinor)]
  }

  lemma {:induction false} ChargedAt(target: TargetLog, k: nat)
    requires k < |target|
    ensures |Charged(target)| == |target|
    ensures var e := target[k].payload.evidence; Charged(target)[k] == Grant(e.scope, e.actionId, e.amountMinor)
  {
    var n := |target| - 1;
    if n > 0 {
      ChargedAt(target[..n], if k < n then k else 0);
    }
  }

  lemma {:induction false} ChargedLength(target: TargetLog)
    ensures |Charged(target)| == |target|
  {
    if target != [] {
      ChargedAt(target, 0);
    }
  }

  lemma {:induction false} ChargedIsSpent(target: TargetLog)
    requires forall k :: 0 <= k < |target| ==> target[k].kind == PURCHASE
    ensures Spent(Purchases(target)) == Total(Charged(target))
  {
    if target != [] {
      var n := |target| - 1;
      ChargedIsSpent(target[..n]);
      var before := Purchases(target[..n]);
      assert (before + [target[n].payload])[..|before|] == before;
      var charged := Charged(target[..n]);
      var e := target[n].payload.evidence;
      assert (charged + [Grant(e.scope, e.actionId, e.amountMinor)])[..|charged|] == charged;
    }
  }

  lemma {:induction false} IssuedIsGranted(cfg: Config, steps: seq<Step>, i: nat, ticket: TicketText)
    requires Issued(cfg, steps, i, ticket)
    ensures Grant(steps[i].scope, steps[i].r.actionId, steps[i].r.amountMinor) in Granted(cfg, steps)
  {
    hide AuthorizeStep, Run;
    var n := |steps| - 1;
    if i < n {
      assert steps[..n][..i] == steps[..i];
      IssuedIsGranted(cfg, steps[..n], i, ticket);
    }
  }

  lemma {:induction false} GrantedNonNegative(cfg: Config, steps: seq<Step>)
    ensures forall k :: 0 <= k < |Granted(cfg, steps)| ==> Granted(cfg, steps)[k].amount >= 0
  {
    hide AuthorizeStep, Run;
    if steps != [] {
      GrantedNonNegative(cfg, steps[..|steps| - 1]);
    }
  }

  lemma ChargedIsGranted(cfg: Config, steps: seq<Step>, k: nat)
    requires PossibleRun(cfg, steps) && k < |Run(cfg, steps).target|
    ensures |Charged(Run(cfg, steps).target)| == |Run(cfg, steps).target|
    ensures Charged(Run(cfg, steps).target)[k] in Granted(cfg, steps)
  {
    hide Run, PossibleRun, Issued, Granted, Charged;
    var target := Run(cfg, steps).target;
    ChargedAt(target, k);
    var i := PurchasesInjectIntoTickets(cfg, steps, k);
    var ticket :| IssuedCovering(cfg, steps, i, ticket, target[k].payload.evidence);
    IssuedIsGranted(cfg, steps, i, ticket);
  }

  lemma ChargedDistinct(cfg: Config, steps: seq<Step>)
    requires PossibleRun(cfg, steps)
    ensures Distinct(Charged(Run(cfg, steps).target))
    ensures forall k :: 0 <= k < |Run(cfg, steps).target| ==> Run(cfg, steps).target[k].kind == PURCHASE
  {
    hide Run, PossibleRun, Sound, EngineCore, Charged, Backed;
    var s := Run(cfg, steps);
    RunSound(cfg, steps);
    SoundParts(cfg, s);
    ChargedLength(s.target);
    forall j, k | 0 <= j < k < |Charged(s.target)|
      ensures Charged(s.target)[j] != Charged(s.target)[k]
    {
      ChargedAt(s.target, j);
      ChargedAt(s.target, k);
      assert PurchaseEvent(cfg, s.engine, s.target[j]) && PurchaseEvent(cfg, s.engine, s.target[k]);
    }
    forall k | 0 <= k < |s.target|
      ensures s.target[k].kind == PURCHASE
    {
      assert PurchaseEvent(cfg, s.engine, s.target[k]);
    }
  }

  /** In every possible run, under any controls, the target never spends more than the amounts of the tickets the engine
      has issued. */
  lemma SpentWithinGranted(cfg: Config, steps: seq<Step>)
    requires PossibleRun(cfg, steps)
    ensures Spent(Purchases(Run(cfg, steps).target)) <= Total(Granted(cfg, steps))
  {
    hide Run, PossibleRun, Granted, Charged, Purchases, Spent, Total;
    var target := Run(cfg, steps).target;
    ChargedDistinct(cfg, steps);
    ChargedIsSpent(target);
    GrantedNonNegative(cfg, steps);
    ChargedLength(target);
    forall g | g in Charged(target)
      ensures g in Granted(cfg, steps)
    {
      var k :| 0 <= k < |Charged(target)| && Charged(target)[k] == g;
      ChargedIsGranted(cfg, steps, k);
    }
    TotalOfPart(Charged(target), Granted(cfg, steps));
  }
}
