/** The stateless reference service: decide, recheck and receipt assessment over an immutable catalog. */
module ReferenceService {
  import opened Wrappers
  import opened Contracts
  import opened Selection
  import opened Evaluator
  import opened Decisions
  import opened TraceOrder
  import opened Recheck
  import opened ReceiptAssurance

  // ---- Catalog and facts ---------------------------------------------------

  /** What a selection resolves to, apart from the observation time. */
  datatype CatalogEntry = CatalogEntry(controls: seq<Control>, supportedVerifiers: set<string>)

  datatype ServiceError =
    | IntentInvalid
    | PriorInvalid
    | SelectionUnknown
    | FactsUnavailable
    | EvaluationFailed(cause: EvaluationError)
    | BindingsDiffer
    | ReportAfterAssessment
    | ReceiptRefused(reason: ReceiptError)
    | CompleteRefused

  /** `facts` is the fact provider: a function of the selection, the time, the intent and the snapshot. Every
      provider ignores the prior decision it is handed, so it is not a parameter. `entryRest` is the canonical text of
      a trace entry after its control reference. */
  datatype Service = Service(catalog: map<Json, CatalogEntry>,
                             facts: (Json, int, ActionIntent, Snapshot) -> Option<EvaluationFacts>,
                             canon: Canon, entryRest: TraceEntry -> string)

  const SERVICE_TTL := 300

  function ResolveSelection(sv: Service, selection: Json, observedAt: int): Result<Snapshot, ServiceError> {
    if selection !in sv.catalog then Err(SelectionUnknown)
    else
      var entry := sv.catalog[selection];
      Ok(FinalizeSnapshot(Snapshot(entry.controls, observedAt, NonAuthoritative, entry.supportedVerifiers, None)))
  }

  function EvaluatorFor(sv: Service, s: Snapshot): Evaluator {
    Evaluator(s.supportedVerifiers, SERVICE_TTL, sv.canon)
  }

  // ---- Decide --------------------------------------------------------------

  /** The trace that comes with a decision. */
  function TraceFor(sv: Service, intent: ActionIntent, s: Snapshot): seq<TraceEntry> {
    match SelectControls(intent, s, sv.canon)
    case Ok(os) => OrderedTrace(os, sv.canon, sv.entryRest)
    case Err(_) => []
  }

  function Decide(sv: Service, intent: ActionIntent, selection: Json, observedAt: int): Result<Decision, ServiceError> {
    if !VerifiedIntent(intent) then Err(IntentInvalid)
    else
      match ResolveSelection(sv, selection, observedAt)
      case Err(e) => Err(e)
      case Ok(s) =>
        match sv.facts(selection, observedAt, intent, s)
        case None => Err(FactsUnavailable)
        case Some(facts) =>
          match Evaluate(EvaluatorFor(sv, s), intent, s, facts)
          case Err(e) => Err(EvaluationFailed(e))
          case Ok(d) =>
            if d.appliedControls != RefsOfTrace(TraceFor(sv, intent, s)) then Err(BindingsDiffer) else Ok(d)
  }

  /** The guard against a decision and a trace that name different controls never fires. */
  lemma BindingsNeverDiffer(sv: Service, intent: ActionIntent, selection: Json, observedAt: int)
    requires sv.canon.Faithful() && PrefixFree(sv.canon.control)
    ensures Decide(sv, intent, selection, observedAt) != Err(BindingsDiffer)
  {
    hide Evaluate, SelectControls, OrderedTrace;
    var found := ResolveSelection(sv, selection, observedAt);
    if found.Ok? {
      var facts := sv.facts(selection, observedAt, intent, found.value);
      if facts.Some? && Evaluate(EvaluatorFor(sv, found.value), intent, found.value, facts.value).Ok? {
        TraceRefsAreApplied(EvaluatorFor(sv, found.value), intent, found.value, facts.value, sv.entryRest);
      }
    }
  }

  /** What the service decides: for a genuine intent and a known selection with facts, the decision of the catalog's
      controls at this time under the catalog's verifiers, good for 300 seconds and never authoritative. */
  lemma ServiceDecides(sv: Service, intent: ActionIntent, selection: Json, observedAt: int)
    ensures var r := Decide(sv, intent, selection, observedAt);
            && (r == Err(IntentInvalid) <==> intent.intentDigest != Some(OfIntent(intent.(intentDigest := None))))
            && (r == Err(SelectionUnknown) <==> r != Err(IntentInvalid) && selection !in sv.catalog)
            && (r.Ok?
                ==> && selection in sv.catalog
                    && var entry := sv.catalog[selection];
                       var s := FinalizeSnapshot(Snapshot(entry.controls, observedAt, NonAuthoritative,
                                                          entry.supportedVerifiers, None));
                       && sv.facts(selection, observedAt, intent, s).Some?
                       && Evaluate(Evaluator(entry.supportedVerifiers, 300, sv.canon), intent, s,
                                   sv.facts(selection, observedAt, intent, s).value) == Ok(r.value)
                       && r.value.conformance && r.value.evaluatedAt == observedAt
                       && r.value.expiresAt == observedAt + 300_000_000
                       && r.value.intentRef.intentId == intent.intentId)
  {
    hide Evaluate, TraceFor;
    if selection in sv.catalog {
      var s := ResolveSelection(sv, selection, observedAt).value;
      var facts := sv.facts(selection, observedAt, intent, s);
      if facts.Some? && Evaluate(EvaluatorFor(sv, s), intent, s, facts.value).Ok? {
        DecisionBinds(EvaluatorFor(sv, s), intent, s, facts.value);
        DecisionNames(EvaluatorFor(sv, s), intent, s, facts.value);
      }
    }
  }

  // ---- Recheck -------------------------------------------------------------

  datatype RecheckRequest = RecheckRequest(original: ActionIntent, prior: Decision, current: ActionIntent,
                                           selection: Json, referenceTime: Option<int>)

  /** Each field says whether that part is unchanged. */
  datatype Comparisons = Comparisons(actor: bool, action: bool, resource: bool, context: bool,
                                     controls: bool, window: bool)
  {
    predicate AllSame() {
      actor && action && resource && context && controls && window
    }
  }

  datatype RecheckResponse = RecheckResponse(recheck: RecheckResult, comparisons: Comparisons, selection: Json)

  predicate PriorBinds(original: ActionIntent, prior: Decision) {
    && VerifiedIntent(original)
    && VerifiedDecision(prior)
    && prior.intentRef == IntentRefOf(original)
  }

  /** The referenced control is in the snapshot and in force. */
  predicate StillEffective(ref: ControlRef, s: Snapshot, at: int) {
    exists k :: 0 <= k < |s.controls| && ReferenceOf(s.controls[k]) == ref && Effective(s.controls[k], at)
  }

  predicate AppliedStillEffective(refs: seq<ControlRef>, s: Snapshot, at: int) {
    forall k :: 0 <= k < |refs| ==> StillEffective(refs[k], s, at)
  }

  function Compare(original: ActionIntent, current: ActionIntent, prior: Decision, s: Snapshot, at: int): Comparisons {
    Comparisons(original.actor == current.actor,
                original.action == current.action,
                original.resource == current.resource,
                original.contextDigest == current.contextDigest,
                AppliedStillEffective(prior.appliedControls, s, at),
                at < prior.expiresAt)
  }

  /** `now` is the server clock, used when the request names no reference time. */
  function RecheckService(sv: Service, q: RecheckRequest, now: int): Result<RecheckResponse, ServiceError> {
    if !PriorBinds(q.original, q.prior) || !VerifiedIntent(q.current) then Err(PriorInvalid)
    else
      var at := if q.referenceTime.Some? then q.referenceTime.value else now;
      match ResolveSelection(sv, q.selection, at)
      case Err(e) => Err(e)
      case Ok(currentSnapshot) =>
        var same := Compare(q.original, q.current, q.prior, currentSnapshot, at);
        var priorRef := DecisionRefOf(q.prior);
        if !same.window then
          Ok(RecheckResponse(RecheckResult(false, priorRef, Expired, None), same, q.selection))
        else if !same.controls then
          Ok(RecheckResponse(RecheckResult(false, priorRef, CurrentControlIneffective, None), same, q.selection))
        else
          match ResolveSelection(sv, q.selection, q.prior.evaluatedAt)
          case Err(e) => Err(e)
          case Ok(s) =>
            match sv.facts(q.selection, q.prior.evaluatedAt, q.current, s)
            case None => Err(FactsUnavailable)
            case Some(facts) =>
              Ok(RecheckResponse(RecheckDecision(q.prior, q.current, s, facts, EvaluatorFor(sv, s)), same, q.selection))
  }

  /** The checks the client makes before it believes a recheck response. */
  predicate ClientAccepts(q: RecheckRequest, r: RecheckResponse)
    requires q.prior.digest.Some?
  {
    && r.selection == q.selection
    && r.recheck.priorRef == DecisionRefOf(q.prior)
    && (r.recheck.valid
        ==> && q.current == q.original
            && r.recheck.reason == RecheckValid
            && r.recheck.currentRef == Some(r.recheck.priorRef)
            && r.comparisons.AllSame()
            && (q.referenceTime.Some? ==> q.referenceTime.value < q.prior.expiresAt))
  }

  /** What the client may believe, whoever answered: a response it accepts names its own decision and selection, and if
      it says valid, then the intent is the decided one, every comparison says unchanged, the decision came out again,
      and the time asked about is before its end. */
  lemma ClientBelieves(q: RecheckRequest, r: RecheckResponse)
    requires q.prior.digest.Some? && ClientAccepts(q, r)
    ensures r.selection == q.selection && r.recheck.priorRef.digest == q.prior.digest.value
    ensures r.recheck.priorRef.ns == q.prior.ns && r.recheck.priorRef.decisionId == q.prior.decisionId
    ensures r.recheck.valid
            ==> && q.current == q.original && r.recheck.reason == RecheckValid
                && r.recheck.currentRef.Some? && r.recheck.currentRef.value.digest == q.prior.digest.value
                && r.comparisons == Comparisons(true, true, true, true, true, true)
                && (q.referenceTime.None? || q.referenceTime.value < q.prior.expiresAt)
  {
  }

  /** A valid recheck means the intent is the original one, nothing compared differs, and the time is in window. */
  lemma ValidRecheckIsSound(sv: Service, q: RecheckRequest, now: int)
    requires RecheckService(sv, q, now).Ok? && RecheckService(sv, q, now).value.recheck.valid
    ensures q.current == q.original
    ensures RecheckService(sv, q, now).value.comparisons.AllSame()
    ensures RecheckService(sv, q, now).value.recheck.currentRef == Some(DecisionRefOf(q.prior))
    ensures (if q.referenceTime.Some? then q.referenceTime.value else now) < q.prior.expiresAt
  {
    hide Evaluate, AppliedStillEffective;
    var s := ResolveSelection(sv, q.selection, q.prior.evaluatedAt).value;
    var facts := sv.facts(q.selection, q.prior.evaluatedAt, q.current, s).value;
    ValidIff(q.prior, q.current, s, facts, EvaluatorFor(sv, s));
    DecisionBinds(EvaluatorFor(sv, s), q.current, s, facts);
    SameIntent(q.current, q.original);
  }

  /** Every recheck response the service gives, valid or not, passes the client's checks. */
  lemma ClientAcceptsEveryRecheck(sv: Service, q: RecheckRequest, now: int)
    requires RecheckService(sv, q, now).Ok?
    ensures q.prior.digest.Some? && ClientAccepts(q, RecheckService(sv, q, now).value)
  {
    hide Evaluate, AppliedStillEffective;
    if RecheckService(sv, q, now).value.recheck.valid {
      ValidRecheckIsSound(sv, q, now);
    }
  }

  /** Each of these controls is in the catalog under this selection, published, and in force. */
  predicate InForceStill(sv: Service, selection: Json, refs: seq<ControlRef>, at: int) {
    && selection in sv.catalog
    && forall ref :: ref in refs
         ==> exists c :: c in sv.catalog[selection].controls && Refers(ref, c) && c.status == Published
                         && (c.effectiveFrom.None? || c.effectiveFrom.value <= at)
                         && (c.effectiveUntil.None? || c.effectiveUntil.value > at)
  }

  lemma StillEffectiveIff(sv: Service, selection: Json, refs: seq<ControlRef>, at: int)
    requires ResolveSelection(sv, selection, at).Ok?
    ensures AppliedStillEffective(refs, ResolveSelection(sv, selection, at).value, at)
            <==> InForceStill(sv, selection, refs, at)
  {
    hide ReferenceOf, Refers;
    var s := ResolveSelection(sv, selection, at).value;
    var controls := sv.catalog[selection].controls;
    assert s.controls == controls;
    forall ref: ControlRef
      ensures StillEffective(ref, s, at)
              <==> exists c :: c in controls && Refers(ref, c) && c.status == Published
                               && (c.effectiveFrom.None? || c.effectiveFrom.value <= at)
                               && (c.effectiveUntil.None? || c.effectiveUntil.value > at)
    {
      if StillEffective(ref, s, at) {
        var k :| 0 <= k < |controls| && ReferenceOf(controls[k]) == ref && Effective(controls[k], at);
        assert controls[k] in controls;
        RefersIff(ref, controls[k]);
      }
      if c :| c in controls && Refers(ref, c) && Effective(c, at) {
        RefersIff(ref, c);
        var k :| 0 <= k < |controls| && controls[k] == c;
      }
    }
    assert forall k :: 0 <= k < |refs| ==> refs[k] in refs;
  }

  /** A request to recheck is refused exactly for a prior decision or intents that are not genuine or not about each
      other, and for an unknown selection, unless facts are needed and not there. Every other response names what it
      compared: actor, action, resource and context of the intents, whether the decision's controls are in the catalog
      and in force, and whether it is unexpired. */
  lemma RecheckCompares(sv: Service, q: RecheckRequest, now: int)
    ensures var at := if q.referenceTime.Some? then q.referenceTime.value else now;
            var r := RecheckService(sv, q, now);
            && (r == Err(PriorInvalid)
                <==> !(&& VerifiedIntent(q.original) && VerifiedIntent(q.current) && VerifiedDecision(q.prior)
                       && q.prior.intentRef.ns == q.original.ns && q.prior.intentRef.intentId == q.original.intentId
                       && Some(q.prior.intentRef.digest) == q.original.intentDigest))
            && (r == Err(SelectionUnknown) <==> r != Err(PriorInvalid) && q.selection !in sv.catalog)
            && (r.Err? ==> r.error == PriorInvalid || r.error == SelectionUnknown || r.error == FactsUnavailable)
            && (r == Err(FactsUnavailable)
                ==> at < q.prior.expiresAt && InForceStill(sv, q.selection, q.prior.appliedControls, at))
            && (r.Ok?
                ==> var c := r.value.comparisons;
                    && (c.actor <==> q.original.actor == q.current.actor)
                    && (c.action <==> q.original.action == q.current.action)
                    && (c.resource <==> q.original.resource == q.current.resource)
                    && (c.context <==> q.original.contextDigest == q.current.contextDigest)
                    && (c.controls <==> InForceStill(sv, q.selection, q.prior.appliedControls, at))
                    && (c.window <==> at < q.prior.expiresAt)
                    && r.value.selection == q.selection)
  {
    hide Evaluate, AppliedStillEffective, InForceStill, RecheckDecision;
    var at := if q.referenceTime.Some? then q.referenceTime.value else now;
    if q.selection in sv.catalog {
      StillEffectiveIff(sv, q.selection, q.prior.appliedControls, at);
    }
    if q.original.intentDigest.Some? && q.prior.intentRef.ns == q.original.ns
       && q.prior.intentRef.intentId == q.original.intentId
       && Some(q.prior.intentRef.digest) == q.original.intentDigest {
      assert q.prior.intentRef == IntentRefOf(q.original);
    }
  }

  /** A recheck of a decision the service made, for any genuine intent and the same selection: expired from its end on,
      ineffective where one of its controls is no longer in force, valid for the same intent, and for another intent
      what deciding that one at the same time came to: no facts, invalid input, or a changed intent. */
  lemma DecideThenRecheck(sv: Service, intent: ActionIntent, selection: Json, decidedAt: int, current: ActionIntent,
                          referenceTime: Option<int>, now: int)
    requires Decide(sv, intent, selection, decidedAt).Ok? && VerifiedIntent(current)
    ensures var prior := Decide(sv, intent, selection, decidedAt).value;
            var at := if referenceTime.Some? then referenceTime.value else now;
            var again := Decide(sv, current, selection, decidedAt);
            var r := RecheckService(sv, RecheckRequest(intent, prior, current, selection, referenceTime), now);
            if at >= prior.expiresAt then r.Ok? && !r.value.recheck.valid && r.value.recheck.reason == Expired
            else if !InForceStill(sv, selection, prior.appliedControls, at) then
              r.Ok? && !r.value.recheck.valid && r.value.recheck.reason == CurrentControlIneffective
            else if current == intent then r.Ok? && r.value.recheck.valid
            else if again == Err(FactsUnavailable) then r == Err(FactsUnavailable)
            else r.Ok? && !r.value.recheck.valid
                 && r.value.recheck.reason == if again.Err? && again.error.EvaluationFailed? then InputInvalid
                                              else IntentChanged
  {
    hide Evaluate, AppliedStillEffective, TraceFor, InForceStill;
    var s := ResolveSelection(sv, selection, decidedAt).value;
    var facts := sv.facts(selection, decidedAt, intent, s).value;
    var at := if referenceTime.Some? then referenceTime.value else now;
    var e := EvaluatorFor(sv, s);
    DecisionBinds(e, intent, s, facts);
    StillEffectiveIff(sv, selection, Decide(sv, intent, selection, decidedAt).value.appliedControls, at);
    var facts' := sv.facts(selection, decidedAt, current, s);
    if facts'.Some? {
      ReasonIff(intent, s, facts, e, current, s, facts'.value, e);
      if Evaluate(e, current, s, facts'.value) == Evaluate(e, intent, s, facts) {
        EqualDecisionsEqualInputs(e, intent, s, facts, e, current, s, facts'.value);
      }
    }
  }

  // ---- Receipt assessment --------------------------------------------------

  datatype Report = Report(actualRoute: Option<Route>, occurredAt: int, rest: Json)

  /** The observation the service makes of a caller's report: never executed, whatever the caller says. */
  function ObservationOf(intent: ActionIntent, report: Report, recordedAt: int): Observation {
    FinalizeObservation(
      Observation(ObjectRef(intent.ns, "controlspec.reference.execution_report", Hashed("", OfJson(report.rest)),
                            Some("0.1.0"), Some(OfJson(report.rest))),
                  report.actualRoute, NotExecuted, report.occurredAt, recordedAt, None))
  }

  function AssessService(sv: Service, intent: ActionIntent, d: Decision, selection: Json, report: Report,
                         recordedAt: int): Result<Receipt, ServiceError>
  {
    if recordedAt < report.occurredAt then Err(ReportAfterAssessment)
    else
      match RecheckService(sv, RecheckRequest(intent, d, intent, selection, Some(recordedAt)), recordedAt)
      case Err(e) => Err(e)
      case Ok(checked) =>
        match ResolveSelection(sv, selection, d.evaluatedAt)
        case Err(e) => Err(e)
        case Ok(s) =>
          match sv.facts(selection, d.evaluatedAt, intent, s)
          case None => Err(FactsUnavailable)
          case Some(facts) =>
            match AssessReceipt(d, intent, checked.recheck, facts, ObservationOf(intent, report, recordedAt),
                                report.rest, 1, None)
            case Err(e) => Err(ReceiptRefused(e))
            case Ok(r) => if r.status == Complete then Err(CompleteRefused) else Ok(r)
  }

  /** The guard against complete assurance from caller reports never fires: no assessment can be complete. */
  lemma CompleteGuardNeverFires(sv: Service, intent: ActionIntent, d: Decision, selection: Json, report: Report,
                                recordedAt: int)
    ensures AssessService(sv, intent, d, selection, report, recordedAt) != Err(CompleteRefused)
    ensures AssessService(sv, intent, d, selection, report, recordedAt).Ok?
            ==> AssessService(sv, intent, d, selection, report, recordedAt).value.status != Complete
  {
    hide AssessReceipt, RecheckDecision;
    if recordedAt >= report.occurredAt {
      var checked := RecheckService(sv, RecheckRequest(intent, d, intent, selection, Some(recordedAt)), recordedAt);
      if checked.Ok? && ResolveSelection(sv, selection, d.evaluatedAt).Ok? {
        var s := ResolveSelection(sv, selection, d.evaluatedAt).value;
        var facts := sv.facts(selection, d.evaluatedAt, intent, s);
        var o := ObservationOf(intent, report, recordedAt);
        if facts.Some? && AssessReceipt(d, intent, checked.value.recheck, facts.value, o, report.rest, 1, None).Ok? {
          StatusIff(d, intent, checked.value.recheck, facts.value, o, report.rest, 1, None);
        }
      }
    }
  }

  /** Every response to a recheck is about the prior decision. */
  lemma RecheckNames(sv: Service, q: RecheckRequest, now: int)
    requires RecheckService(sv, q, now).Ok?
    ensures PriorBinds(q.original, q.prior) && q.prior.digest.Some?
    ensures RecheckService(sv, q, now).value.recheck.priorRef == DecisionRefOf(q.prior)
  {
    hide Evaluate, AppliedStillEffective;
  }

  /** When the service gives a receipt: the report is not from the future and falls into the decision's window, the
      recheck at this time answers, facts are there, evidence is genuine wherever any is required, no two matches share
      an evidence reference, and under-served requirements have different identifiers. */
  lemma ServiceAssessesIff(sv: Service, intent: ActionIntent, d: Decision, selection: Json, report: Report,
                           recordedAt: int)
    ensures var checked := RecheckService(sv, RecheckRequest(intent, d, intent, selection, Some(recordedAt)),
                                          recordedAt);
            AssessService(sv, intent, d, selection, report, recordedAt).Ok?
            <==> && report.occurredAt <= recordedAt && d.evaluatedAt <= report.occurredAt < d.expiresAt
                 && checked.Ok?
                 && var s := ResolveSelection(sv, selection, d.evaluatedAt);
                    && s.Ok? && sv.facts(selection, d.evaluatedAt, intent, s.value).Some?
                    && var evidence := sv.facts(selection, d.evaluatedAt, intent, s.value).value.evidence;
                       && (d.requiredEvidence == []
                           || forall f :: f in evidence ==> f.digest == Some(OfEvidence(f.(digest := None))))
                       && MatchesApart(d.requiredEvidence, evidence, intent, recordedAt)
                       && MissingApart(d.requiredEvidence, evidence, intent, recordedAt)
  {
    hide AssessReceipt, RecheckDecision, MatchesApart, MissingApart, StillEffective;
    var checked := RecheckService(sv, RecheckRequest(intent, d, intent, selection, Some(recordedAt)), recordedAt);
    var s := ResolveSelection(sv, selection, d.evaluatedAt);
    CompleteGuardNeverFires(sv, intent, d, selection, report, recordedAt);
    if checked.Ok? && s.Ok? && sv.facts(selection, d.evaluatedAt, intent, s.value).Some? {
      var facts := sv.facts(selection, d.evaluatedAt, intent, s.value).value;
      var o := ObservationOf(intent, report, recordedAt);
      RecheckNames(sv, RecheckRequest(intent, d, intent, selection, Some(recordedAt)), recordedAt);
      AssessOkIff(d, intent, checked.value.recheck, facts, o, report.rest, 1, None);
    }
  }

  /** A receipt of the service says that nothing was executed and repeats what the caller reported. It is incomplete
      exactly if the recheck at this time is valid, the decision permits, the caller reports the decided route and some
      required evidence is not served; any other receipt failed. */
  lemma ServiceReceipt(sv: Service, intent: ActionIntent, d: Decision, selection: Json, report: Report, recordedAt: int)
    requires AssessService(sv, intent, d, selection, report, recordedAt).Ok?
    ensures var q := RecheckRequest(intent, d, intent, selection, Some(recordedAt));
            var checked := RecheckService(sv, q, recordedAt);
            var r := AssessService(sv, intent, d, selection, report, recordedAt).value;
            && checked.Ok? && ResolveSelection(sv, selection, d.evaluatedAt).Ok?
            && report.occurredAt <= recordedAt && r.occurredAt == report.occurredAt && r.recordedAt == recordedAt
            && r.executionOutcome == NotExecuted && r.actualRoute == report.actualRoute && r.reported == report.rest
            && var facts := sv.facts(selection, d.evaluatedAt, intent,
                                     ResolveSelection(sv, selection, d.evaluatedAt).value);
               && facts.Some?
               && (r.status == Incomplete
                   <==> && checked.value.recheck.valid && (d.verdict == Allow || d.verdict == AllowWithConditions)
                        && report.actualRoute == Some(d.route)
                        && exists x :: x in d.requiredEvidence
                                       && !EvidenceServed(facts.value.evidence, x, intent, recordedAt))
               && (r.status != Incomplete ==> r.status == ReceiptFailed)
  {
    hide AssessReceipt, RecheckDecision, EvidenceServed, RecheckService;
    var checked := RecheckService(sv, RecheckRequest(intent, d, intent, selection, Some(recordedAt)), recordedAt);
    var s := ResolveSelection(sv, selection, d.evaluatedAt).value;
    var facts := sv.facts(selection, d.evaluatedAt, intent, s);
    var o := ObservationOf(intent, report, recordedAt);
    StatusIff(d, intent, checked.value.recheck, facts.value, o, report.rest, 1, None);
    ReceiptHolds(d, intent, checked.value.recheck, facts.value, o, report.rest, 1, None);
  }
}
