/** Exact re-evaluation of a prior decision; never issues replacement authority. */
module Recheck {
  import opened Wrappers
  import opened Contracts
  import opened Evaluator

  datatype RecheckReason =
    | RecheckValid
    | Expired
    | InputInvalid
    | IntentChanged
    | ControlsChanged
    | ContextChanged
    | SemanticInputChanged
    | CurrentControlIneffective

  datatype RecheckResult = RecheckResult(valid: bool, priorRef: DecisionRef, reason: RecheckReason,
                                         currentRef: Option<DecisionRef>)

  function RecheckDecision(prior: Decision, i: ActionIntent, s: Snapshot, facts: EvaluationFacts, e: Evaluator)
    : RecheckResult
    requires prior.digest.Some?
  {
    var priorRef := DecisionRefOf(prior);
    if s.observedAt >= prior.expiresAt then RecheckResult(false, priorRef, Expired, None)
    else
      match Evaluate(e, i, s, facts)
      case Err(_) => RecheckResult(false, priorRef, InputInvalid, None)
      case Ok(current) =>
        assert current.digest.Some? by { DecisionBinds(e, i, s, facts); }
        var currentRef := Some(DecisionRefOf(current));
        if current == prior then RecheckResult(true, priorRef, RecheckValid, currentRef)
        else
          RecheckResult(false, priorRef,
                        if current.binding.intentDigest != prior.binding.intentDigest then IntentChanged
                        else if current.appliedControls != prior.appliedControls then ControlsChanged
                        else if current.binding.contextDigest != prior.binding.contextDigest then ContextChanged
                        else SemanticInputChanged,
                        currentRef)
  }

  /** A recheck is valid exactly when the same decision comes out again before it expires. */
  lemma ValidIff(prior: Decision, i: ActionIntent, s: Snapshot, facts: EvaluationFacts, e: Evaluator)
    requires prior.digest.Some?
    ensures RecheckDecision(prior, i, s, facts, e).valid
            <==> s.observedAt < prior.expiresAt && Evaluate(e, i, s, facts) == Ok(prior)
  {
  }

  /** The answer to a recheck of a decision made for some intent: expired after its end, invalid where no decision
      comes out now, and otherwise whether the same decision comes out, and if not, what is said to have changed: the
      intent if it is another one, else the applied controls if they are others, else something else that went in. A
      changed context alone is never said to be the reason, because it changes the intent. */
  lemma ReasonIff(i: ActionIntent, s: Snapshot, facts: EvaluationFacts, e: Evaluator, i': ActionIntent, s': Snapshot,
                  facts': EvaluationFacts, e': Evaluator)
    requires Evaluate(e, i, s, facts).Ok? && Evaluate(e, i, s, facts).value.digest.Some?
    ensures var prior := Evaluate(e, i, s, facts).value;
            var now := Evaluate(e', i', s', facts');
            var r := RecheckDecision(prior, i', s', facts', e');
            && r.priorRef == DecisionRefOf(prior) && (r.valid <==> r.reason == RecheckValid)
            && (now.Ok? ==> now.value.digest.Some?)
            && (r.currentRef == if s'.observedAt < prior.expiresAt && now.Ok? then Some(DecisionRefOf(now.value))
                                else None)
            && r.reason == if s'.observedAt >= prior.expiresAt then Expired
                           else if now.Err? then InputInvalid
                           else if now.value == prior then RecheckValid
                           else if i' != i then IntentChanged
                           else if now.value.appliedControls != prior.appliedControls then ControlsChanged
                           else SemanticInputChanged
  {
    hide Evaluate;
    DecisionBinds(e, i, s, facts);
    if Evaluate(e', i', s', facts').Ok? {
      DecisionBinds(e', i', s', facts');
      if i.intentDigest == i'.intentDigest {
        SameIntent(i, i');
      }
    }
  }

  /** Rechecking with the inputs of the decision is valid; rechecking with any other inputs is not. */
  lemma ValidOnlyForSameInputs(i: ActionIntent, s: Snapshot, facts: EvaluationFacts,
                               i': ActionIntent, s': Snapshot, facts': EvaluationFacts, e: Evaluator)
    requires e.ttlSeconds > 0 && Evaluate(e, i, s, facts).Ok?
    requires Evaluate(e, i, s, facts).value.digest.Some?
    ensures RecheckDecision(Evaluate(e, i, s, facts).value, i', s', facts', e).valid
            <==> i == i' && s == s' && facts == facts'
  {
    hide Evaluate;
    var prior := Evaluate(e, i, s, facts).value;
    DecisionBinds(e, i, s, facts);
    ValidIff(prior, i', s', facts', e);
    if Evaluate(e, i', s', facts') == Ok(prior) {
      EqualDecisionsEqualInputs(e, i, s, facts, e, i', s', facts');
    }
  }
}
