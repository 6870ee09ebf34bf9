/** Execution tickets and target evidence, with symbolic message authentication. */
module Tickets {
  import opened Wrappers
  import opened Contracts
  import opened Policy

  const PURPOSE := "synthetic-purchase-only"
  const METHOD := "POST"
  const TARGET_PATH := "/purchases"

  datatype TicketPayload = TicketPayload(purpose: string, scope: TrustedScope, actionId: string,
                                         requestDigest: Digest, policyDigest: Digest, decisionDigest: Digest,
                                         httpMethod: string, path: string, issuedAt: int, expiresAt: int, nonce: Text)

  /** A target receipt without its MAC. */
  datatype Evidence = Evidence(status: string, actionId: string, scope: TrustedScope, requestDigest: Digest,
                               nonce: Text, amountMinor: int, committedAt: int, evidenceId: Digest)

  /** What a MAC covers. Evidence is prefixed, a ticket is plain JSON, so the two never coincide. */
  datatype Message = TicketMessage(ticket: TicketPayload) | EvidenceMessage(evidence: Evidence)

  datatype Mac = Mac(key: string, message: Message)

  /** What arrives in the ticket header: something that does not parse, or a payload with a MAC. */
  datatype TicketText = Garbled | SignedTicket(payload: TicketPayload, mac: Mac)

  /** A receipt as a caller presents it; the MAC field may be absent or not text. */
  datatype ReceiptClaim = ReceiptClaim(evidence: Evidence, mac: Option<Mac>)

  function SignTicket(p: TicketPayload, key: string): TicketText {
    SignedTicket(p, Mac(key, TicketMessage(p)))
  }

  function VerifyTicket(t: TicketText, key: string): Option<TicketPayload> {
    if t.SignedTicket? && t.mac == Mac(key, TicketMessage(t.payload)) then Some(t.payload) else None
  }

  /** The literal fields an execution ticket must carry. */
  predicate TicketShape(p: TicketPayload) {
    p.purpose == PURPOSE && p.httpMethod == METHOD && p.path == TARGET_PATH
  }

  predicate GenuineEvidence(c: ReceiptClaim, key: string) {
    c.mac == Some(Mac(key, EvidenceMessage(c.evidence)))
  }
}
