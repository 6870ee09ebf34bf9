/** Both exceptions to making a decision are real: an intent, a snapshot and facts for each. */
module TotalityExamples {
  import opened Wrappers
  import opened Contracts
  import opened Ordering
  import opened Pointer
  import opened Predicates
  import opened Selection
  import opened Requirements
  import opened Composition
  import opened Evaluator
  import opened Validity
  import opened Totality

  function ExampleRoute(): Route { Route("example.control", "go-on", Continue, None, map[], false) }

  function ExampleControl(predicates: seq<Predicate>): Control {
    FinalizeControl(
      Control("example.control", "control", "1.0.0", Published, None, None,
              ControlMatch({Agent}, {Observe}, {"example.look"}, {"example.thing"}, predicates),
              RouteFailure(ExampleRoute(), "example.unknown"),
              ControlEffect(Allow, ExampleRoute(), [], [], "example.ok"),
              None))
  }

  function ExampleIntent(): ActionIntent {
    FinalizeIntent(
      ActionIntent("example.control", "intent", Actor("example.control", Lit("agent"), "1", Agent, None, [], map[]),
                   Action(Observe, "example.look", JNull),
                   Resource("example.control", "thing", "1", "example.thing", None, map[]),
                   map[], JNull, 0, "key", ContextDigest(map[]), None))
  }

  function ExampleSnapshot(controls: seq<Control>): Snapshot {
    FinalizeSnapshot(Snapshot(controls, 0, NonAuthoritative, {}, None))
  }

  function NoFacts(): EvaluationFacts { EvaluationFacts(None, [], [], []) }

  lemma ExampleControlFits(predicates: seq<Predicate>)
    ensures var c := ExampleControl(predicates);
            && ValidControl(c) && VerifiedControl(c) && UsedVerifiers(c) == {}
            && VerifiedIntent(ExampleIntent()) && Effective(c, 0) && CoreMatch(c, ExampleIntent())
            && c.match_.predicates == predicates
            && c.onUnknown == RouteFailure(ExampleRoute(), "example.unknown")
            && c.effect == ControlEffect(Allow, ExampleRoute(), [], [], "example.ok")
  {
  }

  lemma ExampleSnapshotFits(c: Control, twice: bool)
    requires VerifiedControl(c) && UsedVerifiers(c) == {}
    ensures SnapshotError(ExampleSnapshot(if twice then [c, c] else [c])).None?
  {
    hide UsedVerifiers, VerifiedControl, Supports;
    SupportsIff(c, {});
    SnapshotValidIff(ExampleSnapshot(if twice then [c, c] else [c]));
  }

  /** A predicate that compares an object with a number is unknown. */
  lemma UnknownExample()
    ensures EvaluatePredicate(Compare("/context", Lt, JInt(0)), Document(ExampleIntent())) == Ok(Unknown)
  {
    hide Resolve, Document, Encode, At, ExampleIntent;
    var path := [Field("context")];
    EncodePlain("context");
    assert "/" + "context" == "/context";
    ExampleContext();
    ResolveInvertsEncode(Document(ExampleIntent()), path);
  }

  lemma EncodePlain(name: string)
    requires Plain(name)
    ensures Encode([Field(name)]) == "/" + name
  {
    PlainTokens(name);
    var path := [Field(name)];
    assert path[1..] == [] && Encode(path[1..]) == [] && name + [] == name;
  }

  lemma ExampleContext()
    ensures At(Document(ExampleIntent()), [Field("context")]) == Some(JObj(map[]))
  {
    var path := [Field("context")];
    assert path[1..] == [];
    assert Document(ExampleIntent()).fields["context"] == JObj(map[]);
  }

  /** One control whose predicate is unknown and whose unknown failure routes to a default route: no decision. */
  lemma UnknownFailureTraps(e: Evaluator)
    requires e.ttlSeconds > 0 && e.canon.Faithful()
    ensures var s := ExampleSnapshot([ExampleControl([Compare("/context", Lt, JInt(0))])]);
            ValidControls(s.controls) && Evaluate(e, ExampleIntent(), s, NoFacts()) == Err(DecisionInvalid)
  {
    hide ExampleControl, ExampleIntent, EvaluatePredicate, Document, Evaluate, ApplyControl, UsedVerifiers, Selected;
    hide SnapshotError, Effective, CoreMatch, ValidControl;
    var p := Compare("/context", Lt, JInt(0));
    var c, i := ExampleControl([p]), ExampleIntent();
    var s := ExampleSnapshot([c]);
    ExampleControlFits([p]);
    ExampleSnapshotFits(c, false);
    UnknownExample();
    assert PredicateResults([p], Document(i)) == Ok([Unknown]) by { OneResult(p, Document(i), Unknown); }
    var o := ApplyControl(c, [Unknown]);
    AppliedFields(c, [Unknown]);
    SelectOne(e, c, i, s, o);
    PlainAssessment([o], Situation(i, s, NoFacts(), e.registry));
    assert Trapped([o], NOTHING) by { LoneRouteTraps(o); }
    AssessedDecidesIff(e, i, s, NoFacts());
  }

  lemma SelectOne(e: Evaluator, c: Control, i: ActionIntent, s: Snapshot, o: Applied)
    requires s.controls == [c] && SnapshotError(s).None? && Contribution(c, i, s.observedAt) == Ok([o])
    ensures SelectControls(i, s, e.canon) == Ok([o])
  {
    hide Contribution, SnapshotError;
    assert [c][1..] == [] && [o][1..] == [] && [o] + [] == [o];
    assert SelectFrom([], i, s.observedAt) == Ok([]);
    assert SortBy([o][1..], OutcomeKey(e.canon)) == [];
  }

  /** Outcomes without conditions and requirements add nothing. */
  lemma {:induction false} PlainAssessment(os: seq<Applied>, s: Situation)
    requires s.facts == NoFacts()
    requires forall o :: o in os && o.outcome.Normal?
               ==> o.outcome.effect.conditions == [] && o.outcome.effect.requirements == []
    ensures Assess(os, s) == Ok(NOTHING)
  {
    if os != [] {
      PlainAssessment(os[1..], s);
      JoinUnit(NOTHING);
    }
  }

  lemma OneResult(p: Predicate, document: Json, r: PredicateResult)
    requires EvaluatePredicate(p, document) == Ok(r)
    ensures PredicateResults([p], document) == Ok([r])
  {
    hide EvaluatePredicate;
    assert [p][1..] == [] && PredicateResults([], document) == Ok([]) && [r] + [] == [r];
  }

  lemma LoneRouteTraps(o: Applied)
    requires o.outcome.Failed? && DefaultFailure(o.outcome.failure)
    ensures Trapped([o], NOTHING)
  {
    assert [o][1..] == [] && Outcomes([o]) == [o.outcome];
    assert Values([o], NOTHING) == [o.outcome];
    assert o.outcome in [o.outcome];
    assert OnlyMandatory([o.outcome], o.outcome.failure.route);
  }

  /** One control, twice in the snapshot with different display text: the trace cannot hold it twice. */
  lemma RepeatedControlFails(e: Evaluator)
    requires e.ttlSeconds > 0 && e.canon.Faithful()
    ensures var s := ExampleSnapshot([ExampleControl([]), ExampleControl([])]);
            ValidControls(s.controls) && Evaluate(e, ExampleIntent(), s, NoFacts()) == Err(TraceInvalid)
  {
    hide ExampleControl, ExampleIntent, Evaluate, ApplyControl, UsedVerifiers, SnapshotError, Effective, CoreMatch;
    hide ValidControl, SelectControls, Assess, Trapped, BuildDecision, TraceOf, Compose, DecisionWellFormed;
    hide Contribution;
    var c, i := ExampleControl([]), ExampleIntent();
    var s := ExampleSnapshot([c, c]);
    ExampleControlFits([]);
    ExampleSnapshotFits(c, true);
    var o := ApplyControl(c, []);
    AppliedFields(c, []);
    ContributionOfPlain(c, i);
    SelectTwo(e, c, i, s, o);
    var situation := Situation(i, s, NoFacts(), e.registry);
    var os := SelectControls(i, s, e.canon).value;
    PlainAssessment(os, situation);
    assert !Trapped(os, NOTHING) by { NoRouteNoTrap(os); }
    AssessedDecidesIff(e, i, s, NoFacts());
    NotSelectedOnce(c, i, s);
    EvaluateSteps(e, i, s, NoFacts(), os, NOTHING);
  }

  lemma ContributionOfPlain(c: Control, i: ActionIntent)
    requires Effective(c, 0) && CoreMatch(c, i) && c.match_.predicates == []
    ensures Contribution(c, i, 0) == Ok([ApplyControl(c, [])]) && Selected(c, i, 0)
  {
    hide ApplyControl, Effective, CoreMatch, Concerns;
    SelectedIff(c, i, 0);
  }

  lemma AppliedFields(c: Control, results: seq<PredicateResult>)
    ensures ApplyControl(c, results).outcome == if Unknown in results then Failed(c.onUnknown) else Normal(c.effect)
  {
  }

  lemma SelectTwo(e: Evaluator, c: Control, i: ActionIntent, s: Snapshot, o: Applied)
    requires s.controls == [c, c] && SnapshotError(s).None? && Contribution(c, i, s.observedAt) == Ok([o])
    ensures SelectControls(i, s, e.canon).Ok?
    ensures forall x :: x in SelectControls(i, s, e.canon).value ==> x == o
  {
    hide Contribution, SnapshotError, SortBy;
    assert [c, c][1..] == [c] && [c][1..] == [] && [o] + [] == [o];
    assert SelectFrom([], i, s.observedAt) == Ok([]);
    assert SelectFrom([c], i, s.observedAt) == Ok([o]);
    assert SelectFrom([c, c], i, s.observedAt) == Ok([o] + [o]);
    SortByMembers([o] + [o], OutcomeKey(e.canon));
  }

  lemma NoRouteNoTrap(os: seq<Applied>)
    requires forall o :: o in os ==> EffectVerdictOf(o.outcome) != RouteTo
    ensures !Trapped(os, NOTHING)
  {
    OutcomesMembers(os);
  }

  lemma NotSelectedOnce(c: Control, i: ActionIntent, s: Snapshot)
    requires s.controls == [c, c] && Selected(c, i, s.observedAt)
    ensures !SelectedOnce(s.controls, i, s.observedAt)
  {
    hide Selected, ReferenceOf;
    assert s.controls[0] == c && s.controls[1] == c;
  }
}
