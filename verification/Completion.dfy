/** From the ticket to the end, under any controls: an issued ticket commits its request, and a committed purchase
    reconciles. */
module Completion {
  import opened Wrappers
  import opened Policy
  import opened Tickets
  import opened Engine
  import opened Target
  import opened Protocol
  import opened Safety
  import opened Progress

  lemma {:induction false} MacsStay(cfg: Config, steps: seq<Step>, i: nat, n: nat)
    requires i <= n <= |steps|
    ensures Run(cfg, steps[..i]).macs <= Run(cfg, steps[..n]).macs
    decreases n - i
  {
    hide Run, EvaluateStep, ApproveStep, ReconcileStep, AuthorizeStep, CommitStep;
    if i < n {
      RunStep(cfg, steps, i);
      MacsStay(cfg, steps, i + 1, n);
    }
  }

  /** From the next step on, an issued ticket can be presented. */
  lemma IssuedIsReleased(cfg: Config, steps: seq<Step>, i: nat, ticket: TicketText, n: nat)
    requires Issued(cfg, steps, i, ticket) && i < n <= |steps|
    ensures ticket.SignedTicket? && ticket.mac in Run(cfg, steps[..n]).macs
  {
    hide Run, AuthorizeStep, StateAt, RecordCore, Names, Allowed;
    var record := IssueState(cfg, steps, i, ticket);
    RunStep(cfg, steps, i);
    MacsStay(cfg, steps, i + 1, n);
  }

  /** The j-th step committed a request under a ticket and got this receipt. */
  predicate CommittedAt(cfg: Config, steps: seq<Step>, j: nat, receipt: ReceiptClaim) {
    && j < |steps| && steps[j].DoCommit?
    && CommitStep(cfg.ticketSecret, Run(cfg, steps[..j]).target, steps[j].r, steps[j].ticket, steps[j].at).result
       == Ok(receipt)
  }

  /** The j-th step presents the ticket of the i-th for the request it was issued for. */
  predicate Redeems(steps: seq<Step>, j: nat, i: nat, ticket: TicketText) {
    && i < j < |steps| && steps[i].DoAuthorize? && steps[j].DoCommit?
    && steps[j].ticket == ticket && steps[j].r == steps[i].r
  }

  lemma IssuedNames(cfg: Config, steps: seq<Step>, i: nat, ticket: TicketText)
    requires Issued(cfg, steps, i, ticket)
    ensures i < |steps| && steps[i].DoAuthorize? && ticket.SignedTicket?
    ensures VerifyTicket(ticket, cfg.ticketSecret) == Some(ticket.payload)
    ensures ticket.payload.scope == steps[i].scope && ticket.payload.actionId == steps[i].r.actionId
    ensures ticket.payload.requestDigest == RequestDigest(steps[i].r)
  {
    hide StateAt, Issued, RecordCore, Allowed, RequestDigest, Run, TicketShape;
    IssuedIsAuthorize(cfg, steps, i, ticket);
    var record := IssueState(cfg, steps, i, ticket);
  }

  /** Committing the request of an issued ticket inside the ticket's window succeeds, whatever happened since. */
  lemma IssuedTicketCommits(cfg: Config, steps: seq<Step>, i: nat, ticket: TicketText, j: nat)
    returns (receipt: ReceiptClaim)
    requires PossibleRun(cfg, steps) && Issued(cfg, steps, i, ticket) && Redeems(steps, j, i, ticket)
    requires ticket.SignedTicket? ==> ticket.payload.issuedAt <= steps[j].at < ticket.payload.expiresAt
    ensures CommittedAt(cfg, steps, j, receipt)
    ensures PurchaseOf(Run(cfg, steps[..j + 1]).target, steps[i].scope, steps[i].r.actionId) == Some(receipt)
  {
    hide Run, Sound, PossibleRun, CommitStep, Issued, RequestDigest, PurchaseOf, Possible;
    IssuedNames(cfg, steps, i, ticket);
    StepIsPossible(cfg, steps, j);
    RunSoundAt(cfg, steps, j);
    RunStep(cfg, steps, j);
    var s := Run(cfg, steps[..j]);
    CommitsIff(cfg, s, steps[j].r, ticket, steps[j].at);
    receipt := CommitStep(cfg.ticketSecret, s.target, steps[j].r, ticket, steps[j].at).result.value;
  }

  /** Once a ticket is committed, its action's purchase stays, and reconciling with the receipt succeeds at any time. */
  lemma CommittedTicketReconciles(cfg: Config, steps: seq<Step>, i: nat, ticket: TicketText, j: nat,
                                  receipt: ReceiptClaim, k: nat, at: int)
    requires PossibleRun(cfg, steps) && Issued(cfg, steps, i, ticket) && Redeems(steps, j, i, ticket)
    requires CommittedAt(cfg, steps, j, receipt) && j < k <= |steps|
    ensures var r, scope := steps[i].r, steps[i].scope;
            var s := Run(cfg, steps[..k]);
            && Possible(cfg, s, DoReconcile(r, scope, Some(receipt), at))
            && PurchaseOf(s.target, scope, r.actionId) == Some(receipt)
            && ReconcileStep(cfg, s.engine, r, scope, Some(receipt), at).1
  {
    hide Run, Sound, PossibleRun, CommitStep, Issued, LatestState, PurchaseOf;
    hide RecordCore, SignTicket, ReconcileStep, RequestDigest, Possible, SignEvidence, CommittedAt, Names, Allowed;
    var r, scope := steps[i].r, steps[i].scope;
    var s := Run(cfg, steps[..k]);
    ReceiptIsReleased(cfg, steps, i, ticket, j, receipt, k);
    RunSoundAt(cfg, steps, k);
    var record := IssueState(cfg, steps, i, ticket);
    ReservedForever(cfg, steps, i + 1, k, scope, r.actionId);
    ReleasedIsPossible(cfg, s, r, scope, receipt, at);
    ReconcilesIff(cfg, s, r, scope, Some(receipt), at);
  }

  lemma ReleasedIsPossible(cfg: Config, s: System, r: PurchaseRequest, scope: TrustedScope, receipt: ReceiptClaim,
                           at: int)
    requires receipt.mac.Some? && receipt.mac.value in s.macs
    ensures Possible(cfg, s, DoReconcile(r, scope, Some(receipt), at))
  {
  }

  /** The receipt of a commit is the purchase its evidence names, for as long as the run goes on. */
  lemma ReceiptIsReleased(cfg: Config, steps: seq<Step>, i: nat, ticket: TicketText, j: nat, receipt: ReceiptClaim,
                          k: nat)
    requires PossibleRun(cfg, steps) && Issued(cfg, steps, i, ticket) && Redeems(steps, j, i, ticket)
    requires CommittedAt(cfg, steps, j, receipt) && j < k <= |steps|
    ensures receipt.mac.Some? && receipt.mac.value in Run(cfg, steps[..k]).macs
    ensures PurchaseOf(Run(cfg, steps[..k]).target, steps[i].scope, steps[i].r.actionId) == Some(receipt)
  {
    hide Run, Sound, PossibleRun, EngineCore, CommitStep, Issued, PurchaseOf, Backed;
    hide Possible, RequestDigest, TargetSound, TicketsSound;
    IssuedNames(cfg, steps, i, ticket);
    var s, s' := Run(cfg, steps[..j]), Run(cfg, steps[..j + 1]);
    var scope, r := steps[i].scope, steps[i].r;
    StepIsPossible(cfg, steps, j);
    RunSoundAt(cfg, steps, j);
    CommitsIff(cfg, s, r, ticket, steps[j].at);
    RunStep(cfg, steps, j);
    RunSoundAt(cfg, steps, j + 1);
    SoundParts(cfg, s');
    PurchaseIsBacked(cfg, s', scope, r.actionId);
    MacsStay(cfg, steps, j + 1, k);
    RunSoundAt(cfg, steps, k);
    SoundParts(cfg, Run(cfg, steps[..k]));
    assert receipt.mac == Some(Mac(cfg.ticketSecret, EvidenceMessage(receipt.evidence)));
  }
}
