/** System-derived receipt assurance: which evidence is missing and whether execution counts as complete. */
module ReceiptAssurance {
  import opened Wrappers
  import opened Contracts
  import opened Counting
  import opened Ordering
  import opened Requirements
  import opened Evaluator
  import opened Recheck

  datatype ReceiptError =
    | DecisionDigestInvalid
    | ObservationDigestInvalid
    | RecheckNotBound
    | IntentNotBound
    | OutsideWindow
    | RecordedBeforeOccurred
    | EvidenceDigestInvalid
    | ReceiptInvalid

  // ---- Evidence ------------------------------------------------------------

  function Elements(ids: seq<Text>): set<Text> {
    set i | 0 <= i < |ids| :: ids[i]
  }

  /** The evidence is about this intent, of the required kind and subject, verified in time and fresh enough. */
  predicate EvidenceApplies(f: EvidenceFact, r: EvidenceRequirement, i: ActionIntent, recordedAt: int) {
    && BindsIntent(f.intentRef, i)
    && f.evidenceRef.ns == i.ns
    && f.evidenceRef.kind == f.kind
    && f.kind == r.kind
    && f.subject == r.subject
    && f.verifiedAt <= recordedAt
    && (r.maxAgeSeconds.Some? ==> recordedAt - f.verifiedAt <= r.maxAgeSeconds.value * MICROS_PER_SECOND)
  }

  /** Producer, certifier and actor are as separate as the requirement demands, with complete lineages. */
  predicate EvidenceSeparated(f: EvidenceFact, r: EvidenceRequirement, i: ActionIntent) {
    var actor := LineageIds(i.actor);
    var producer := {f.producer} + Elements(f.producerLineage);
    var certifier := {f.certifier} + Elements(f.certifierLineage);
    && (r.separation.producerNotActor ==> f.producerLineageComplete && actor !! producer)
    && (r.separation.certifierNotActor ==> f.certifierLineageComplete && actor !! certifier)
    && (r.separation.producerCertifierDistinct
        ==> f.producerLineageComplete && f.certifierLineageComplete && producer !! certifier)
  }

  predicate EvidenceMatches(f: EvidenceFact, r: EvidenceRequirement, i: ActionIntent, recordedAt: int) {
    EvidenceApplies(f, r, i, recordedAt) && EvidenceSeparated(f, r, i)
  }

  function MatchingEvidence(facts: seq<EvidenceFact>, r: EvidenceRequirement, i: ActionIntent, recordedAt: int)
    : seq<EvidenceRef>
  {
    if facts == [] then []
    else (if EvidenceMatches(facts[0], r, i, recordedAt) then [facts[0].evidenceRef] else [])
         + MatchingEvidence(facts[1..], r, i, recordedAt)
  }

  function Missing(rs: seq<EvidenceRequirement>, facts: seq<EvidenceFact>, i: ActionIntent, recordedAt: int)
    : seq<string>
  {
    if rs == [] then []
    else (if |MatchingEvidence(facts, rs[0], i, recordedAt)| < rs[0].minimumCount then [rs[0].requirementId] else [])
         + Missing(rs[1..], facts, i, recordedAt)
  }

  function Verified(rs: seq<EvidenceRequirement>, facts: seq<EvidenceFact>, i: ActionIntent, recordedAt: int)
    : seq<EvidenceRef>
  {
    if rs == [] then []
    else MatchingEvidence(facts, rs[0], i, recordedAt) + Verified(rs[1..], facts, i, recordedAt)
  }

  predicate AllEvidenceVerified(facts: seq<EvidenceFact>) {
    forall k :: 0 <= k < |facts| ==> VerifiedEvidence(facts[k])
  }

  // ---- Assessment ----------------------------------------------------------

  /** The first reason why the observation cannot be bound to the decision. */
  function BindingError(d: Decision, i: ActionIntent, checked: RecheckResult, o: Observation): Option<ReceiptError> {
    if !VerifiedDecision(d) then Some(DecisionDigestInvalid)
    else if !VerifiedObservation(o) then Some(ObservationDigestInvalid)
    else if checked.priorRef != DecisionRefOf(d) then Some(RecheckNotBound)
    else if !BindsIntent(d.intentRef, i) then Some(IntentNotBound)
    else if !(d.evaluatedAt <= o.occurredAt < d.expiresAt) then Some(OutsideWindow)
    else if o.recordedAt < o.occurredAt then Some(RecordedBeforeOccurred)
    else None
  }

  datatype Standing = Standing(status: ReceiptStatus, outcome: ReceiptOutcome)

  function StandingOf(d: Decision, checked: RecheckResult, o: Observation, missing: seq<string>): Standing {
    if !checked.valid || !Permissive(d.verdict) || o.actualRoute != Some(d.route) then
      Standing(ReceiptFailed, if d.verdict == Block || d.verdict == Conflict then OutcomeBlocked else OutcomeFailed)
    else if missing != [] then Standing(Incomplete, OutcomeIncomplete)
    else if o.outcome != Succeeded then Standing(ReceiptFailed, OutcomeFailed)
    else Standing(Complete, OutcomeCompleted)
  }

  function BuildReceipt(d: Decision, o: Observation, reported: Json, sequence: nat, predecessor: Option<ObjectRef>,
                        verified: seq<EvidenceRef>, missing: seq<string>, standing: Standing): Receipt
    requires d.digest.Some?
  {
    FinalizeReceipt(
      Receipt(d.ns, Hashed("receipt-", OfReceiptEnvelope(
                ReceiptEnvelope(DecisionRefOf(d), d.intentRef, o.digest, sequence, predecessor))),
              sequence, DecisionRefOf(d), d.intentRef, o.actualRoute, reported, verified, missing, o.outcome,
              standing.outcome, standing.status, o.occurredAt, o.recordedAt, predecessor, d.conformance, None))
  }

  /** What a receipt must satisfy to be constructed: complete means executed, routed, nothing missing. */
  predicate ReceiptWellFormed(r: Receipt) {
    && r.sequence > 0
    && Distinct(r.verifiedEvidence) && Distinct(r.missingEvidence)
    && (r.status == Complete
        ==> r.executionOutcome == Succeeded && r.actualRoute.Some? && r.missingEvidence == []
            && r.outcome == OutcomeCompleted)
    && (r.outcome == OutcomeCompleted ==> r.status == Complete)
  }

  function AssessReceipt(d: Decision, i: ActionIntent, checked: RecheckResult, facts: EvaluationFacts, o: Observation,
                         reported: Json, sequence: nat, predecessor: Option<ObjectRef>): Result<Receipt, ReceiptError>
  {
    match BindingError(d, i, checked, o)
    case Some(e) => Err(e)
    case None =>
      if d.requiredEvidence != [] && !AllEvidenceVerified(facts.evidence) then Err(EvidenceDigestInvalid)
      else
        var missing := Missing(d.requiredEvidence, facts.evidence, i, o.recordedAt);
        var verified := Verified(d.requiredEvidence, facts.evidence, i, o.recordedAt);
        var receipt := BuildReceipt(d, o, reported, sequence, predecessor, verified, missing,
                                    StandingOf(d, checked, o, missing));
        if ReceiptWellFormed(receipt) then Ok(receipt) else Err(ReceiptInvalid)
  }

  method AssessReceiptByLoop(d: Decision, i: ActionIntent, checked: RecheckResult, facts: EvaluationFacts,
                             o: Observation, reported: Json, sequence: nat, predecessor: Option<ObjectRef>)
    returns (r: Result<Receipt, ReceiptError>)
    ensures r == AssessReceipt(d, i, checked, facts, o, reported, sequence, predecessor)
  {
    hide MatchingEvidence, StandingOf, BuildReceipt, ReceiptWellFormed, AllEvidenceVerified;
    var error := BindingError(d, i, checked, o);
    if error.Some? {
      return Err(error.value);
    }
    var rs := d.requiredEvidence;
    var missing: seq<string> := [];
    var verified: seq<EvidenceRef> := [];
    assert rs[0..] == rs;
    for k := 0 to |rs|
      invariant k > 0 ==> AllEvidenceVerified(facts.evidence)
      invariant missing + Missing(rs[k..], facts.evidence, i, o.recordedAt)
                == Missing(rs, facts.evidence, i, o.recordedAt)
      invariant verified + Verified(rs[k..], facts.evidence, i, o.recordedAt)
                == Verified(rs, facts.evidence, i, o.recordedAt)
    {
      assert rs[k..][1..] == rs[k + 1..];
      if !AllEvidenceVerified(facts.evidence) {
        return Err(EvidenceDigestInvalid);
      }
      var matching := MatchingEvidence(facts.evidence, rs[k], i, o.recordedAt);
      var restMissing := Missing(rs[k + 1..], facts.evidence, i, o.recordedAt);
      assert missing + ([rs[k].requirementId] + restMissing) == (missing + [rs[k].requirementId]) + restMissing;
      assert missing + ([] + restMissing) == missing + restMissing;
      if |matching| < rs[k].minimumCount {
        missing := missing + [rs[k].requirementId];
      }
      var restVerified := Verified(rs[k + 1..], facts.evidence, i, o.recordedAt);
      assert verified + (matching + restVerified) == (verified + matching) + restVerified;
      verified := verified + matching;
    }
    assert rs[|rs|..] == [] && missing + [] == missing && verified + [] == verified;
    var receipt := BuildReceipt(d, o, reported, sequence, predecessor, verified, missing,
                                StandingOf(d, checked, o, missing));
    r := if ReceiptWellFormed(receipt) then Ok(receipt) else Err(ReceiptInvalid);
  }

  // ---- What serves a requirement -------------------------------------------

  /** Someone of this lineage is the actor or in its lineage. */
  predicate Involves(actor: Actor, id: Text, lineage: seq<Text>) {
    Known(actor, id) || exists x :: x in lineage && Known(actor, x)
  }

  /** The fact is about this intent, of the kind and on the subject asked for, verified by then and not too long before;
      where producer or certifier must be apart from the actor or from each other, all is known of their lineages and
      nobody is in both. */
  predicate Fits(f: EvidenceFact, r: EvidenceRequirement, i: ActionIntent, recordedAt: int) {
    && f.intentRef.ns == i.ns && f.intentRef.intentId == i.intentId && Some(f.intentRef.digest) == i.intentDigest
    && f.evidenceRef.ns == i.ns && f.evidenceRef.kind == r.kind && f.kind == r.kind && f.subject == r.subject
    && f.verifiedAt <= recordedAt
    && (r.maxAgeSeconds.Some? ==> recordedAt <= f.verifiedAt + 1_000_000 * r.maxAgeSeconds.value)
    && (r.separation.producerNotActor
        ==> f.producerLineageComplete && !Involves(i.actor, f.producer, f.producerLineage))
    && (r.separation.certifierNotActor
        ==> f.certifierLineageComplete && !Involves(i.actor, f.certifier, f.certifierLineage))
    && (r.separation.producerCertifierDistinct
        ==> && f.producerLineageComplete && f.certifierLineageComplete
            && f.producer != f.certifier && f.producer !in f.certifierLineage && f.certifier !in f.producerLineage
            && forall x :: x in f.producerLineage ==> x !in f.certifierLineage)
  }

  /** Enough facts fit the requirement. */
  predicate EvidenceServed(facts: seq<EvidenceFact>, r: EvidenceRequirement, i: ActionIntent, recordedAt: int) {
    Count(facts, (f: EvidenceFact) => Fits(f, r, i, recordedAt)) >= r.minimumCount
  }

  lemma ElementsIff(ids: seq<Text>, id: Text)
    ensures id in Elements(ids) <==> id in ids
  {
    if id in ids {
      var k :| 0 <= k < |ids| && ids[k] == id;
    }
  }

  lemma InvolvesIff(actor: Actor, id: Text, lineage: seq<Text>)
    ensures LineageIds(actor) !! {id} + Elements(lineage) <==> !Involves(actor, id, lineage)
  {
    hide LineageIds, Known, Elements;
    forall x: Text
      ensures x in LineageIds(actor) <==> Known(actor, x)
      ensures x in Elements(lineage) <==> x in lineage
    {
      KnownIff(actor, x);
      ElementsIff(lineage, x);
    }
    if Involves(actor, id, lineage) {
      var x :| (x == id || x in lineage) && Known(actor, x);
      assert x in LineageIds(actor) && x in {id} + Elements(lineage);
    }
  }

  lemma DistinctLineages(id: Text, lineage: seq<Text>, id': Text, lineage': seq<Text>)
    ensures {id} + Elements(lineage) !! {id'} + Elements(lineage')
            <==> id != id' && id !in lineage' && id' !in lineage && forall x :: x in lineage ==> x !in lineage'
  {
    hide Elements;
    forall x: Text
      ensures x in Elements(lineage) <==> x in lineage
      ensures x in Elements(lineage') <==> x in lineage'
    {
      ElementsIff(lineage, x);
      ElementsIff(lineage', x);
    }
    var both := ({id} + Elements(lineage)) * ({id'} + Elements(lineage'));
    assert id == id' || id in lineage' ==> id in both;
    assert id' in lineage ==> id' in both;
    assert forall x :: x in lineage && x in lineage' ==> x in both;
  }

  /** The source's test of a fact is this. */
  lemma FitsIff(f: EvidenceFact, r: EvidenceRequirement, i: ActionIntent, recordedAt: int)
    ensures EvidenceMatches(f, r, i, recordedAt) <==> Fits(f, r, i, recordedAt)
  {
    hide LineageIds, Elements, Involves;
    InvolvesIff(i.actor, f.producer, f.producerLineage);
    InvolvesIff(i.actor, f.certifier, f.certifierLineage);
    DistinctLineages(f.producer, f.producerLineage, f.certifier, f.certifierLineage);
  }

  lemma {:induction false} ServedIff(facts: seq<EvidenceFact>, r: EvidenceRequirement, i: ActionIntent,
                                    recordedAt: int)
    ensures |MatchingEvidence(facts, r, i, recordedAt)| == Count(facts, (f: EvidenceFact) => Fits(f, r, i, recordedAt))
  {
    hide EvidenceMatches, Fits;
    if facts != [] {
      ServedIff(facts[1..], r, i, recordedAt);
      FitsIff(facts[0], r, i, recordedAt);
    }
  }

  // ---- What assurance means ------------------------------------------------

  /** The missing list names exactly the requirements with too little matching evidence. */
  lemma {:induction false} MissingExactly(rs: seq<EvidenceRequirement>, facts: seq<EvidenceFact>, i: ActionIntent,
                                         recordedAt: int)
    ensures forall id :: id in Missing(rs, facts, i, recordedAt)
                         <==> exists r :: r in rs && r.requirementId == id && !EvidenceServed(facts, r, i, recordedAt)
  {
    hide Fits, MatchingEvidence;
    if rs != [] {
      MissingExactly(rs[1..], facts, i, recordedAt);
      ServedIff(facts, rs[0], i, recordedAt);
      assert rs == [rs[0]] + rs[1..];
    }
  }

  lemma MissingNothing(rs: seq<EvidenceRequirement>, facts: seq<EvidenceFact>, i: ActionIntent, recordedAt: int)
    ensures Missing(rs, facts, i, recordedAt) == []
            <==> forall r :: r in rs ==> EvidenceServed(facts, r, i, recordedAt)
  {
    hide EvidenceServed;
    var missing := Missing(rs, facts, i, recordedAt);
    MissingExactly(rs, facts, i, recordedAt);
    assert missing != [] ==> missing[0] in missing;
    if missing == [] {
      forall r | r in rs
        ensures EvidenceServed(facts, r, i, recordedAt)
      {
        assert r.requirementId !in missing;
      }
    }
  }

  lemma StandingWellFormed(d: Decision, checked: RecheckResult, o: Observation, missing: seq<string>)
    ensures var st := StandingOf(d, checked, o, missing);
            && (st.status == Complete ==> o.outcome == Succeeded && o.actualRoute.Some? && missing == [])
            && (st.status == Complete <==> st.outcome == OutcomeCompleted)
  {
  }

  // ---- When a receipt exists -----------------------------------------------

  /** The k-th fact serves the j-th requirement. */
  predicate Serves(rs: seq<EvidenceRequirement>, facts: seq<EvidenceFact>, i: ActionIntent, recordedAt: int, j: int,
                   k: int)
  {
    0 <= j < |rs| && 0 <= k < |facts| && Fits(facts[k], rs[j], i, recordedAt)
  }

  /** No two different pairs of requirement and serving fact use one evidence reference. */
  ghost predicate MatchesApart(rs: seq<EvidenceRequirement>, facts: seq<EvidenceFact>, i: ActionIntent,
                               recordedAt: int)
  {
    forall j, k, j', k' :: Serves(rs, facts, i, recordedAt, j, k) && Serves(rs, facts, i, recordedAt, j', k')
                           && (j != j' || k != k')
      ==> facts[k].evidenceRef != facts[k'].evidenceRef
  }

  /** No two under-served requirements share an identifier. */
  predicate MissingApart(rs: seq<EvidenceRequirement>, facts: seq<EvidenceFact>, i: ActionIntent, recordedAt: int) {
    forall j, j' :: 0 <= j < j' < |rs|
      ==> EvidenceServed(facts, rs[j], i, recordedAt) || EvidenceServed(facts, rs[j'], i, recordedAt)
          || rs[j].requirementId != rs[j'].requirementId
  }

  lemma {:induction false} MatchingMembers(facts: seq<EvidenceFact>, r: EvidenceRequirement, i: ActionIntent,
                                          recordedAt: int)
    ensures forall x :: x in MatchingEvidence(facts, r, i, recordedAt)
                        <==> exists f :: f in facts && Fits(f, r, i, recordedAt) && f.evidenceRef == x
  {
    hide Fits, EvidenceMatches;
    if facts != [] {
      MatchingMembers(facts[1..], r, i, recordedAt);
      FitsIff(facts[0], r, i, recordedAt);
      assert facts == [facts[0]] + facts[1..];
    }
  }

  /** The facts that match one requirement use different references. */
  predicate FactsApart(facts: seq<EvidenceFact>, r: EvidenceRequirement, i: ActionIntent, recordedAt: int) {
    forall k, k' :: 0 <= k < k' < |facts| && Fits(facts[k], r, i, recordedAt)
                    && Fits(facts[k'], r, i, recordedAt)
      ==> facts[k].evidenceRef != facts[k'].evidenceRef
  }

  lemma {:induction false} MatchingDistinct(facts: seq<EvidenceFact>, r: EvidenceRequirement, i: ActionIntent,
                                           recordedAt: int)
    ensures Distinct(MatchingEvidence(facts, r, i, recordedAt)) <==> FactsApart(facts, r, i, recordedAt)
  {
    hide Fits, EvidenceMatches;
    if facts != [] {
      var rest := facts[1..];
      MatchingDistinct(rest, r, i, recordedAt);
      FitsIff(facts[0], r, i, recordedAt);
      MatchingMembers(rest, r, i, recordedAt);
      var first := if Fits(facts[0], r, i, recordedAt) then [facts[0].evidenceRef] else [];
      DistinctConcat(first, MatchingEvidence(rest, r, i, recordedAt));
      assert MatchingEvidence(facts, r, i, recordedAt) == first + MatchingEvidence(rest, r, i, recordedAt);
      assert Distinct(first);
      assert Fits(facts[0], r, i, recordedAt) ==> first[0] in first;
      FactsApartStep(facts, r, i, recordedAt);
    }
  }

  lemma FactsApartStep(facts: seq<EvidenceFact>, r: EvidenceRequirement, i: ActionIntent, recordedAt: int)
    requires facts != []
    ensures FactsApart(facts, r, i, recordedAt)
            <==> && FactsApart(facts[1..], r, i, recordedAt)
                 && (Fits(facts[0], r, i, recordedAt)
                     ==> forall f :: f in facts[1..] && Fits(f, r, i, recordedAt)
                           ==> f.evidenceRef != facts[0].evidenceRef)
  {
    hide Fits;
    var rest := facts[1..];
    assert forall k :: 0 <= k < |rest| ==> rest[k] == facts[k + 1];
    if FactsApart(facts, r, i, recordedAt) && Fits(facts[0], r, i, recordedAt) {
      forall f | f in rest && Fits(f, r, i, recordedAt)
        ensures f.evidenceRef != facts[0].evidenceRef
      {
        var k :| 0 <= k < |rest| && rest[k] == f;
        assert facts[k + 1] == f;
      }
    }
    if FactsApart(rest, r, i, recordedAt) {
      forall k, k' | 0 < k < k' < |facts| && Fits(facts[k], r, i, recordedAt)
                     && Fits(facts[k'], r, i, recordedAt)
        ensures facts[k].evidenceRef != facts[k'].evidenceRef
      {
        assert rest[k - 1] == facts[k] && rest[k' - 1] == facts[k'];
      }
    }
  }

  lemma {:induction false} VerifiedMembers(rs: seq<EvidenceRequirement>, facts: seq<EvidenceFact>, i: ActionIntent,
                                          recordedAt: int)
    ensures forall x :: x in Verified(rs, facts, i, recordedAt)
                        <==> exists j, k :: Serves(rs, facts, i, recordedAt, j, k) && facts[k].evidenceRef == x
  {
    hide Fits;
    if rs != [] {
      VerifiedMembers(rs[1..], facts, i, recordedAt);
      MatchingMembers(facts, rs[0], i, recordedAt);
      forall x
        ensures x in Verified(rs, facts, i, recordedAt)
                <==> exists j, k :: Serves(rs, facts, i, recordedAt, j, k) && facts[k].evidenceRef == x
      {
        if x in MatchingEvidence(facts, rs[0], i, recordedAt) {
          var f :| f in facts && Fits(f, rs[0], i, recordedAt) && f.evidenceRef == x;
          var k :| 0 <= k < |facts| && facts[k] == f;
          assert Serves(rs, facts, i, recordedAt, 0, k);
        }
        if x in Verified(rs[1..], facts, i, recordedAt) {
          var j, k :| Serves(rs[1..], facts, i, recordedAt, j, k) && facts[k].evidenceRef == x;
          assert Serves(rs, facts, i, recordedAt, j + 1, k);
        }
        if j, k :| Serves(rs, facts, i, recordedAt, j, k) && facts[k].evidenceRef == x {
          assert facts[k] in facts;
          if j > 0 {
            assert Serves(rs[1..], facts, i, recordedAt, j - 1, k);
          }
        }
      }
    }
  }

  lemma {:induction false} VerifiedDistinct(rs: seq<EvidenceRequirement>, facts: seq<EvidenceFact>, i: ActionIntent,
                                           recordedAt: int)
    ensures Distinct(Verified(rs, facts, i, recordedAt)) <==> MatchesApart(rs, facts, i, recordedAt)
  {
    hide Fits, FactsApart, MatchesApart;
    if rs == [] {
      assert MatchesApart(rs, facts, i, recordedAt) by { NothingApart(facts, i, recordedAt); }
    } else {
      VerifiedDistinct(rs[1..], facts, i, recordedAt);
      MatchingDistinct(facts, rs[0], i, recordedAt);
      DistinctConcat(MatchingEvidence(facts, rs[0], i, recordedAt), Verified(rs[1..], facts, i, recordedAt));
      HeadApart(rs, facts, i, recordedAt);
    }
  }

  lemma NothingApart(facts: seq<EvidenceFact>, i: ActionIntent, recordedAt: int)
    ensures MatchesApart([], facts, i, recordedAt)
  {
  }

  lemma HeadApart(rs: seq<EvidenceRequirement>, facts: seq<EvidenceFact>, i: ActionIntent, recordedAt: int)
    requires rs != []
    ensures MatchesApart(rs, facts, i, recordedAt)
            <==> && MatchesApart(rs[1..], facts, i, recordedAt)
                 && FactsApart(facts, rs[0], i, recordedAt)
                 && forall x :: x in MatchingEvidence(facts, rs[0], i, recordedAt)
                      ==> x !in Verified(rs[1..], facts, i, recordedAt)
  {
    hide Fits;
    MatchingMembers(facts, rs[0], i, recordedAt);
    VerifiedMembers(rs[1..], facts, i, recordedAt);
    if MatchesApart(rs, facts, i, recordedAt) {
      TailApart(rs, facts, i, recordedAt);
    } else {
      var j, k, j', k' :| Serves(rs, facts, i, recordedAt, j, k) && Serves(rs, facts, i, recordedAt, j', k')
        && (j != j' || k != k') && facts[k].evidenceRef == facts[k'].evidenceRef;
      if j > j' || (j == j' && k > k') {
        CollisionBelow(rs, facts, i, recordedAt, j', k', j, k);
      } else {
        CollisionBelow(rs, facts, i, recordedAt, j, k, j', k');
      }
    }
  }

  lemma TailApart(rs: seq<EvidenceRequirement>, facts: seq<EvidenceFact>, i: ActionIntent, recordedAt: int)
    requires rs != [] && MatchesApart(rs, facts, i, recordedAt)
    ensures MatchesApart(rs[1..], facts, i, recordedAt) && FactsApart(facts, rs[0], i, recordedAt)
    ensures forall x :: x in MatchingEvidence(facts, rs[0], i, recordedAt)
              ==> x !in Verified(rs[1..], facts, i, recordedAt)
  {
    hide Fits;
    MatchingMembers(facts, rs[0], i, recordedAt);
    VerifiedMembers(rs[1..], facts, i, recordedAt);
    assert forall j, k :: Serves(rs[1..], facts, i, recordedAt, j, k) ==> Serves(rs, facts, i, recordedAt, j + 1, k);
    assert forall k :: 0 <= k < |facts| && Fits(facts[k], rs[0], i, recordedAt)
             ==> Serves(rs, facts, i, recordedAt, 0, k);
    forall x | x in MatchingEvidence(facts, rs[0], i, recordedAt)
      ensures x !in Verified(rs[1..], facts, i, recordedAt)
    {
      var f :| f in facts && Fits(f, rs[0], i, recordedAt) && f.evidenceRef == x;
      var k :| 0 <= k < |facts| && facts[k] == f;
      assert Serves(rs, facts, i, recordedAt, 0, k);
    }
  }

  lemma CollisionBelow(rs: seq<EvidenceRequirement>, facts: seq<EvidenceFact>, i: ActionIntent, recordedAt: int,
                       j: int, k: int, j': int, k': int)
    requires rs != [] && Serves(rs, facts, i, recordedAt, j, k) && Serves(rs, facts, i, recordedAt, j', k')
    requires (j < j' || (j == j' && k < k')) && facts[k].evidenceRef == facts[k'].evidenceRef
    ensures || !MatchesApart(rs[1..], facts, i, recordedAt)
            || !FactsApart(facts, rs[0], i, recordedAt)
            || exists x :: x in MatchingEvidence(facts, rs[0], i, recordedAt)
                           && x in Verified(rs[1..], facts, i, recordedAt)
  {
    hide Fits;
    assert facts[k] in facts;
    if j > 0 {
      assert Serves(rs[1..], facts, i, recordedAt, j - 1, k) && Serves(rs[1..], facts, i, recordedAt, j' - 1, k');
    } else if j' > 0 {
      MatchingMembers(facts, rs[0], i, recordedAt);
      VerifiedMembers(rs[1..], facts, i, recordedAt);
      assert Serves(rs[1..], facts, i, recordedAt, j' - 1, k');
      assert facts[k].evidenceRef in MatchingEvidence(facts, rs[0], i, recordedAt);
    }
  }

  lemma {:induction false} MissingDistinct(rs: seq<EvidenceRequirement>, facts: seq<EvidenceFact>, i: ActionIntent,
                                          recordedAt: int)
    ensures Distinct(Missing(rs, facts, i, recordedAt)) <==> MissingApart(rs, facts, i, recordedAt)
  {
    hide Fits, MatchingEvidence;
    if rs != [] {
      var rest := rs[1..];
      MissingDistinct(rest, facts, i, recordedAt);
      ServedIff(facts, rs[0], i, recordedAt);
      MissingExactly(rest, facts, i, recordedAt);
      var first := if EvidenceServed(facts, rs[0], i, recordedAt) then [] else [rs[0].requirementId];
      DistinctConcat(first, Missing(rest, facts, i, recordedAt));
      assert Missing(rs, facts, i, recordedAt) == first + Missing(rest, facts, i, recordedAt);
      assert Distinct(first);
      assert !EvidenceServed(facts, rs[0], i, recordedAt) ==> first[0] in first;
      MissingApartStep(rs, facts, i, recordedAt);
    }
  }

  lemma MissingApartStep(rs: seq<EvidenceRequirement>, facts: seq<EvidenceFact>, i: ActionIntent, recordedAt: int)
    requires rs != []
    ensures MissingApart(rs, facts, i, recordedAt)
            <==> && MissingApart(rs[1..], facts, i, recordedAt)
                 && (EvidenceServed(facts, rs[0], i, recordedAt)
                     || forall r :: r in rs[1..] && r.requirementId == rs[0].requirementId
                          ==> EvidenceServed(facts, r, i, recordedAt))
  {
    hide EvidenceServed;
    var rest := rs[1..];
    assert forall k :: 0 <= k < |rest| ==> rest[k] == rs[k + 1];
    if MissingApart(rs, facts, i, recordedAt) && !EvidenceServed(facts, rs[0], i, recordedAt) {
      forall r | r in rest && r.requirementId == rs[0].requirementId
        ensures EvidenceServed(facts, r, i, recordedAt)
      {
        var k :| 0 <= k < |rest| && rest[k] == r;
        assert rs[k + 1] == r;
      }
    }
    if MissingApart(rest, facts, i, recordedAt) {
      forall j, j' | 0 < j < j' < |rs|
        ensures EvidenceServed(facts, rs[j], i, recordedAt) || EvidenceServed(facts, rs[j'], i, recordedAt)
                || rs[j].requirementId != rs[j'].requirementId
      {
        assert rest[j - 1] == rs[j] && rest[j' - 1] == rs[j'];
      }
    }
  }

  /** Decision, recheck, intent and observation are genuine and about each other, and execution fell into the decision's
      window and was recorded after it. */
  predicate Bound(d: Decision, i: ActionIntent, checked: RecheckResult, o: Observation) {
    && d.digest == Some(OfDecision(d.(digest := None))) && o.digest == Some(OfObservation(o.(digest := None)))
    && checked.priorRef.ns == d.ns && checked.priorRef.decisionId == d.decisionId
    && Some(checked.priorRef.digest) == d.digest
    && d.intentRef.ns == i.ns && d.intentRef.intentId == i.intentId && Some(d.intentRef.digest) == i.intentDigest
    && d.evaluatedAt <= o.occurredAt && o.occurredAt < d.expiresAt && o.occurredAt <= o.recordedAt
  }

  lemma BoundIff(d: Decision, i: ActionIntent, checked: RecheckResult, o: Observation)
    ensures BindingError(d, i, checked, o).None? <==> Bound(d, i, checked, o)
  {
    if d.digest.Some? && checked.priorRef.ns == d.ns && checked.priorRef.decisionId == d.decisionId
       && checked.priorRef.digest == d.digest.value {
      assert checked.priorRef == DecisionRefOf(d);
    }
  }

  lemma EvidenceGenuineIff(facts: seq<EvidenceFact>)
    ensures AllEvidenceVerified(facts)
            <==> forall f :: f in facts ==> f.digest == Some(OfEvidence(f.(digest := None)))
  {
    assert forall k :: 0 <= k < |facts| ==> facts[k] in facts;
  }

  /** A receipt exists exactly when everything is bound, evidence is genuine wherever any is required, the sequence
      number is positive, no evidence reference is used by two matches, and no two under-served requirements share an
      identifier. */
  lemma AssessOkIff(d: Decision, i: ActionIntent, checked: RecheckResult, facts: EvaluationFacts, o: Observation,
                    reported: Json, sequence: nat, predecessor: Option<ObjectRef>)
    ensures AssessReceipt(d, i, checked, facts, o, reported, sequence, predecessor).Ok?
            <==> && Bound(d, i, checked, o)
                 && (d.requiredEvidence == []
                     || forall f :: f in facts.evidence ==> f.digest == Some(OfEvidence(f.(digest := None))))
                 && sequence > 0
                 && MatchesApart(d.requiredEvidence, facts.evidence, i, o.recordedAt)
                 && MissingApart(d.requiredEvidence, facts.evidence, i, o.recordedAt)
  {
    hide AllEvidenceVerified, Distinct, Missing, Verified, StandingOf, MatchesApart, MissingApart, BindingError, Bound;
    EvidenceGenuineIff(facts.evidence);
    BoundIff(d, i, checked, o);
    StandingWellFormed(d, checked, o, Missing(d.requiredEvidence, facts.evidence, i, o.recordedAt));
    VerifiedDistinct(d.requiredEvidence, facts.evidence, i, o.recordedAt);
    MissingDistinct(d.requiredEvidence, facts.evidence, i, o.recordedAt);
  }

  /** Which error an assessment without a receipt gets: the first thing that is wrong with decision, observation,
      recheck, intent, times and evidence, and otherwise that the receipt itself could not be. */
  lemma ReceiptRefusals(d: Decision, i: ActionIntent, checked: RecheckResult, facts: EvaluationFacts, o: Observation,
                        reported: Json, sequence: nat, predecessor: Option<ObjectRef>)
    ensures var r := AssessReceipt(d, i, checked, facts, o, reported, sequence, predecessor);
            if d.digest != Some(OfDecision(d.(digest := None))) then r == Err(DecisionDigestInvalid)
            else if o.digest != Some(OfObservation(o.(digest := None))) then r == Err(ObservationDigestInvalid)
            else if checked.priorRef.ns != d.ns || checked.priorRef.decisionId != d.decisionId
                    || Some(checked.priorRef.digest) != d.digest then r == Err(RecheckNotBound)
            else if d.intentRef.ns != i.ns || d.intentRef.intentId != i.intentId
                    || Some(d.intentRef.digest) != i.intentDigest then r == Err(IntentNotBound)
            else if o.occurredAt < d.evaluatedAt || d.expiresAt <= o.occurredAt then r == Err(OutsideWindow)
            else if o.recordedAt < o.occurredAt then r == Err(RecordedBeforeOccurred)
            else if d.requiredEvidence != []
                    && exists f :: f in facts.evidence && f.digest != Some(OfEvidence(f.(digest := None))) then
              r == Err(EvidenceDigestInvalid)
            else r.Ok? || r == Err(ReceiptInvalid)
  {
    hide Missing, Verified, StandingOf, ReceiptWellFormed, AllEvidenceVerified, BuildReceipt;
    EvidenceGenuineIff(facts.evidence);
    if d.digest.Some? {
      var ref := checked.priorRef;
      assert ref == DecisionRef(ref.ns, ref.decisionId, ref.digest);
    }
  }

  /** Status and outcome of every receipt. Complete means: the recheck is valid, the decision permits, the route is the
      decided one, every required evidence is served, and execution succeeded. Incomplete means that all but the
      evidence is right, whether or not execution succeeded. Everything else failed. The outcome says the same, except
      that nothing but blocked comes of a decision that blocks. */
  lemma StatusIff(d: Decision, i: ActionIntent, checked: RecheckResult, facts: EvaluationFacts, o: Observation,
                  reported: Json, sequence: nat, predecessor: Option<ObjectRef>)
    requires AssessReceipt(d, i, checked, facts, o, reported, sequence, predecessor).Ok?
    ensures var r := AssessReceipt(d, i, checked, facts, o, reported, sequence, predecessor).value;
            var fit := checked.valid && (d.verdict == Allow || d.verdict == AllowWithConditions)
                       && o.actualRoute == Some(d.route);
            var served := forall q :: q in d.requiredEvidence ==> EvidenceServed(facts.evidence, q, i, o.recordedAt);
            && (r.status == Complete <==> fit && served && o.outcome == Succeeded)
            && (r.status == Incomplete <==> fit && !served)
            && (r.status == ReceiptFailed <==> !fit || (served && o.outcome != Succeeded))
            && (r.outcome == OutcomeCompleted <==> r.status == Complete)
            && (r.outcome == OutcomeIncomplete <==> r.status == Incomplete)
            && (r.outcome == OutcomeBlocked <==> d.verdict == Block || d.verdict == Conflict)
            && (r.outcome == OutcomeFailed
                <==> r.status == ReceiptFailed && d.verdict != Block && d.verdict != Conflict)
  {
    hide EvidenceServed, Missing, Verified, ReceiptWellFormed, AllEvidenceVerified, BindingError;
    MissingNothing(d.requiredEvidence, facts.evidence, i, o.recordedAt);
  }

  /** What a receipt holds: the references of exactly the facts that serve a requirement, the identifiers of exactly the
      requirements that are not served, and decision, intent, observation and report as they were given. */
  lemma ReceiptHolds(d: Decision, i: ActionIntent, checked: RecheckResult, facts: EvaluationFacts, o: Observation,
                     reported: Json, sequence: nat, predecessor: Option<ObjectRef>)
    requires AssessReceipt(d, i, checked, facts, o, reported, sequence, predecessor).Ok?
    ensures d.digest.Some?
    ensures var r := AssessReceipt(d, i, checked, facts, o, reported, sequence, predecessor).value;
            && (forall id :: id in r.missingEvidence
                  <==> exists q :: q in d.requiredEvidence && q.requirementId == id
                                   && !EvidenceServed(facts.evidence, q, i, o.recordedAt))
            && (forall x :: x in r.verifiedEvidence
                  <==> exists q, f :: q in d.requiredEvidence && f in facts.evidence && Fits(f, q, i, o.recordedAt)
                                      && f.evidenceRef == x)
            && r.digest == Some(OfReceipt(r.(digest := None))) && r.ns == d.ns && r.sequence == sequence
            && r.predecessor == predecessor
            && r.decisionRef == DecisionRefOf(d) && r.intentRef == d.intentRef && r.reported == reported
            && r.actualRoute == o.actualRoute && r.executionOutcome == o.outcome
            && r.occurredAt == o.occurredAt && r.recordedAt == o.recordedAt && r.conformance == d.conformance
            && r.receiptId == Hashed("receipt-", OfReceiptEnvelope(
                 ReceiptEnvelope(DecisionRefOf(d), d.intentRef, o.digest, sequence, predecessor)))
  {
    hide EvidenceServed, Missing, Verified, ReceiptWellFormed, AllEvidenceVerified, BindingError, StandingOf, Fits;
    BoundIff(d, i, checked, o);
    MissingExactly(d.requiredEvidence, facts.evidence, i, o.recordedAt);
    VerifiedMembers(d.requiredEvidence, facts.evidence, i, o.recordedAt);
    var verified := Verified(d.requiredEvidence, facts.evidence, i, o.recordedAt);
    forall x
      ensures x in verified
              <==> exists q, f :: q in d.requiredEvidence && f in facts.evidence && Fits(f, q, i, o.recordedAt)
                                  && f.evidenceRef == x
    {
      ServingPair(d.requiredEvidence, facts.evidence, i, o.recordedAt, x);
    }
  }

  lemma ServingPair(rs: seq<EvidenceRequirement>, facts: seq<EvidenceFact>, i: ActionIntent, recordedAt: int,
                    x: EvidenceRef)
    ensures (exists j, k :: Serves(rs, facts, i, recordedAt, j, k) && facts[k].evidenceRef == x)
            <==> exists q, f :: q in rs && f in facts && Fits(f, q, i, recordedAt) && f.evidenceRef == x
  {
    hide Fits;
    if j, k :| Serves(rs, facts, i, recordedAt, j, k) && facts[k].evidenceRef == x {
      assert rs[j] in rs && facts[k] in facts;
    }
    if q, f :| q in rs && f in facts && Fits(f, q, i, recordedAt) && f.evidenceRef == x {
      var j :| 0 <= j < |rs| && rs[j] == q;
      var k :| 0 <= k < |facts| && facts[k] == f;
      assert Serves(rs, facts, i, recordedAt, j, k);
    }
  }

  /** A fact that serves two requirements of the decision makes every receipt for it impossible. */
  lemma SharedFactRefused(d: Decision, i: ActionIntent, checked: RecheckResult, facts: EvaluationFacts, o: Observation,
                          reported: Json, sequence: nat, predecessor: Option<ObjectRef>, j: nat, j': nat, k: nat)
    requires j < j' && Serves(d.requiredEvidence, facts.evidence, i, o.recordedAt, j, k)
    requires Serves(d.requiredEvidence, facts.evidence, i, o.recordedAt, j', k)
    ensures AssessReceipt(d, i, checked, facts, o, reported, sequence, predecessor).Err?
  {
    hide AssessReceipt, Serves, MissingApart, AllEvidenceVerified;
    AssessOkIff(d, i, checked, facts, o, reported, sequence, predecessor);
  }
}
