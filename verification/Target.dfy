/** The synthetic target: signed exact tickets in, at most one purchase per action, signed evidence out. */
module Target {
  import opened Wrappers
  import opened Contracts
  import opened Predicates
  import opened Ledgers
  import opened Policy
  import opened Tickets

  const PURCHASE := "purchase"

  type TargetLog = seq<Event<ReceiptClaim>>

  datatype CommitError = InvalidTicket | TicketExpired | TicketRequestMismatch | IdempotencyConflict

  datatype Committed = Committed(log: TargetLog, result: Result<ReceiptClaim, CommitError>)

  function EvidenceId(r: PurchaseRequest, scope: TrustedScope, nonce: Text): Digest {
    OfJson(JObj(map["scope" := DigestText(ScopeKey(scope)), "action_id" := Name(r.actionId), "nonce" := JStr(nonce),
                    "request_digest" := DigestText(RequestDigest(r))]))
  }

  function EvidenceFor(r: PurchaseRequest, scope: TrustedScope, nonce: Text, at: int): Evidence {
    Evidence("committed", r.actionId, scope, RequestDigest(r), nonce, r.amountMinor, at, EvidenceId(r, scope, nonce))
  }

  function SignEvidence(e: Evidence, secret: string): ReceiptClaim {
    ReceiptClaim(e, Some(Mac(secret, EvidenceMessage(e))))
  }

  /** The purchase recorded for an action, if any. */
  function PurchaseOf(log: TargetLog, scope: TrustedScope, actionId: string): Option<ReceiptClaim> {
    Latest(log, ScopeKey(scope), actionId, PURCHASE)
  }

  /** Idempotent mutation: a repeat returns the first receipt, a different request or nonce conflicts. */
  function CommitBound(secret: string, log: TargetLog, r: PurchaseRequest, scope: TrustedScope, nonce: Text, at: int)
    : Committed
  {
    match PurchaseOf(log, scope, r.actionId)
    case Some(previous) =>
      Committed(log, if previous.evidence.requestDigest != RequestDigest(r) || previous.evidence.nonce != nonce
                     then Err(IdempotencyConflict) else Ok(previous))
    case None =>
      var receipt := SignEvidence(EvidenceFor(r, scope, nonce, at), secret);
      Committed(Append(log, ScopeKey(scope), r.actionId, PURCHASE, receipt), Ok(receipt))
  }

  function TicketRefusal(binding: Option<TicketPayload>, r: PurchaseRequest, at: int): Option<CommitError> {
    if binding.None? || !TicketShape(binding.value) then Some(InvalidTicket)
    else if !(binding.value.issuedAt <= at < binding.value.expiresAt) then Some(TicketExpired)
    else if binding.value.actionId != r.actionId || binding.value.requestDigest != RequestDigest(r) then
      Some(TicketRequestMismatch)
    else None
  }

  function CommitStep(secret: string, log: TargetLog, r: PurchaseRequest, ticket: TicketText, at: int): Committed {
    var binding := VerifyTicket(ticket, secret);
    match TicketRefusal(binding, r, at)
    case Some(e) => Committed(log, Err(e))
    case None => CommitBound(secret, log, r, binding.value.scope, binding.value.nonce, at)
  }

  /** The receipts of all purchases, oldest first. */
  function Purchases(log: TargetLog): seq<ReceiptClaim> {
    if log == [] then []
    else
      var last := log[|log| - 1];
      Purchases(log[..|log| - 1]) + (if last.kind == PURCHASE then [last.payload] else [])
  }

  function Spent(receipts: seq<ReceiptClaim>): int {
    if receipts == [] then 0 else Spent(receipts[..|receipts| - 1]) + receipts[|receipts| - 1].evidence.amountMinor
  }

  const OPENING_BALANCE := 1_000_000

  datatype Account = Account(purchaseCount: nat, spent: int, balance: int)

  class SyntheticTarget {
    const secret: string
    const ledger: Ledger<ReceiptClaim>

    constructor (secret: string)
      ensures this.secret == secret && fresh(ledger) && ledger.events == []
    {
      this.secret := secret;
      ledger := new Ledger<ReceiptClaim>();
    }

    method Commit(r: PurchaseRequest, ticket: TicketText, at: int) returns (result: Result<ReceiptClaim, CommitError>)
      modifies ledger
      ensures Committed(ledger.events, result) == CommitStep(secret, old(ledger.events), r, ticket, at)
    {
      var binding := VerifyTicket(ticket, secret);
      if binding.None? || !TicketShape(binding.value) {
        return Err(InvalidTicket);
      }
      if !(binding.value.issuedAt <= at < binding.value.expiresAt) {
        return Err(TicketExpired);
      }
      if binding.value.actionId != r.actionId || binding.value.requestDigest != RequestDigest(r) {
        return Err(TicketRequestMismatch);
      }
      result := CommitOnce(r, binding.value.scope, binding.value.nonce, at);
    }

    method CommitOnce(r: PurchaseRequest, scope: TrustedScope, nonce: Text, at: int)
      returns (result: Result<ReceiptClaim, CommitError>)
      modifies ledger
      ensures Committed(ledger.events, result) == CommitBound(secret, old(ledger.events), r, scope, nonce, at)
    {
      var digest := RequestDigest(r);
      var previous := ledger.Find(ScopeKey(scope), r.actionId, PURCHASE);
      if previous.Some? {
        if previous.value.evidence.requestDigest != digest || previous.value.evidence.nonce != nonce {
          return Err(IdempotencyConflict);
        }
        return Ok(previous.value);
      }
      var receipt := SignEvidence(EvidenceFor(r, scope, nonce, at), secret);
      var _ := ledger.Add(ScopeKey(scope), r.actionId, PURCHASE, receipt);
      result := Ok(receipt);
    }

    method State() returns (account: Account)
      ensures account.purchaseCount == |Purchases(ledger.events)|
      ensures account.spent == Spent(Purchases(ledger.events))
      ensures account.balance == 1_000_000 - account.spent
    {
      var purchases: seq<ReceiptClaim> := [];
      var spent := 0;
      for k := 0 to |ledger.events|
        invariant purchases == Purchases(ledger.events[..k]) && spent == Spent(purchases)
      {
        assert ledger.events[..k + 1][..k] == ledger.events[..k];
        if ledger.events[k].kind == PURCHASE {
          var more := purchases + [ledger.events[k].payload];
          assert more[..|more| - 1] == purchases;
          purchases := more;
          spent := spent + ledger.events[k].payload.evidence.amountMinor;
        }
      }
      assert ledger.events[..|ledger.events|] == ledger.events;
      account := Account(|purchases|, spent, OPENING_BALANCE - spent);
    }
  }
}
