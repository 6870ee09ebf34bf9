/** The reducer from selected outcomes and assessment to one verdict and route. */
module Composition {
  import opened Wrappers
  import opened Contracts
  import opened Ordering
  import opened Selection
  import opened Requirements

  const NO_APPLICABLE_CODE := "controlspec.core.no_applicable_published_control"

  function SafetyRoute(conflict: bool): Route {
    Route("controlspec.core", if conflict then "conflict-block" else "fail-closed-block", BlockRoute, None, map[],
          false)
  }

  datatype Composed = Composed(verdict: Verdict, route: Route, conditions: seq<ConditionResult>,
                               approvals: seq<ApprovalRequirement>, evidence: seq<EvidenceRequirement>,
                               applied: seq<ControlRef>, codes: seq<string>, requiresRecheck: bool)

  function Outcomes(os: seq<Applied>): seq<Effect> {
    if os == [] then [] else [os[0].outcome] + Outcomes(os[1..])
  }

  function Refs(os: seq<Applied>): seq<ControlRef> {
    if os == [] then [] else [os[0].ref] + Refs(os[1..])
  }

  function Codes(os: seq<Applied>): seq<string> {
    if os == [] then [] else [EffectCode(os[0].outcome)] + Codes(os[1..])
  }

  function FailureEffects(fs: seq<FailureEntry>): seq<Effect> {
    if fs == [] then [] else [Failed(fs[0].failure)] + FailureEffects(fs[1..])
  }

  /** Everything that bears on the verdict: outcomes, failures, retained profile outcomes. */
  function Values(os: seq<Applied>, a: Assessment): seq<Effect> {
    Outcomes(os) + FailureEffects(a.failures) + a.profileOutcomes
  }

  /** The routes of the values with a given verdict. */
  function RoutesOf(values: seq<Effect>, v: Verdict): seq<Route> {
    if values == [] then []
    else
      (if EffectVerdictOf(values[0]) == v && EffectRoute(values[0]).Some? then [EffectRoute(values[0]).value] else [])
      + RoutesOf(values[1..], v)
  }

  /** The routes of the effects that are not failures. */
  function BaseRoutes(values: seq<Effect>): seq<Route> {
    if values == [] then []
    else (if values[0].Normal? then [values[0].effect.route] else []) + BaseRoutes(values[1..])
  }

  predicate HasVerdict(values: seq<Effect>, v: Verdict) {
    exists i :: 0 <= i < |values| && EffectVerdictOf(values[i]) == v
  }

  function BlockRoutes(values: seq<Effect>, a: Assessment): seq<Route> {
    RoutesOf(values, Block) + (if a.independenceFailed then [SafetyRoute(false)] else [])
  }

  /** Verdict, route and the code that explains them; block dominates, then route conflict, one route, approval. */
  datatype Ruling = Ruling(verdict: Verdict, route: Route, code: string)

  function Rule(os: seq<Applied>, a: Assessment, canon: Canon): Ruling
    requires os != []
  {
    var values := Values(os, a);
    var blocked := BlockRoutes(values, a);
    var mandatory := Unique(RoutesOf(values, RouteTo), canon.route);
    var base := Unique(BaseRoutes(values), canon.route);
    if blocked != [] then
      Ruling(Block, Unique(blocked, canon.route)[0],
             if a.independenceFailed then INDEPENDENCE_CODE else "controlspec.core.explicit_block")
    else if |mandatory| > 1 then Ruling(Conflict, SafetyRoute(true), "controlspec.core.route.conflict")
    else if mandatory != [] then Ruling(RouteTo, mandatory[0], "controlspec.core.route.required")
    else if HasVerdict(values, RequireApproval) then
      Ruling(RequireApproval, if base != [] then base[0] else SafetyRoute(false), "controlspec.core.approval.required")
    else
      PermissiveHasBase(os, a);
      if HasVerdict(values, AllowWithConditions) then
        Ruling(AllowWithConditions, base[0], "controlspec.core.allow_with_conditions")
      else Ruling(Allow, base[0], "controlspec.core.allow")
  }

  function Compose(os: seq<Applied>, a: Assessment, canon: Canon): Composed {
    if os == [] then Composed(Block, SafetyRoute(false), [], [], [], [], [NO_APPLICABLE_CODE], false)
    else
      var ruling := Rule(os, a, canon);
      Composed(ruling.verdict, ruling.route,
               Unique(a.conditions, canon.condition),
               Unique(a.approvals, canon.approval),
               Unique(a.evidence, canon.evidence),
               Unique(Refs(os), canon.control),
               Unique(Codes(os) + a.codes + [ruling.code], Itself),
               ruling.verdict == RequireApproval || ruling.verdict == RouteTo || ruling.route.requiresRecheck)
  }

  // ---- Members of the derived sequences ------------------------------------

  lemma {:induction false} RoutesOfMembers(values: seq<Effect>, v: Verdict)
    ensures forall r :: r in RoutesOf(values, v)
                        <==> exists e :: e in values && EffectVerdictOf(e) == v && EffectRoute(e) == Some(r)
  {
    if values != [] {
      RoutesOfMembers(values[1..], v);
      assert values == [values[0]] + values[1..];
    }
  }

  lemma {:induction false} BaseRoutesMembers(values: seq<Effect>)
    ensures forall r :: r in BaseRoutes(values) <==> exists e :: e in values && e.Normal? && e.effect.route == r
  {
    if values != [] {
      BaseRoutesMembers(values[1..]);
      assert values == [values[0]] + values[1..];
    }
  }

  lemma {:induction false} OutcomesMembers(os: seq<Applied>)
    ensures forall e :: e in Outcomes(os) <==> exists o :: o in os && o.outcome == e
  {
    if os != [] {
      OutcomesMembers(os[1..]);
      assert os == [os[0]] + os[1..];
    }
  }

  lemma {:induction false} RefsMembers(os: seq<Applied>)
    ensures forall r :: r in Refs(os) <==> exists o :: o in os && o.ref == r
  {
    if os != [] {
      RefsMembers(os[1..]);
      assert os == [os[0]] + os[1..];
    }
  }

  lemma {:induction false} CodesMembers(os: seq<Applied>)
    ensures forall c :: c in Codes(os) <==> exists o :: o in os && EffectCode(o.outcome) == c
  {
    if os != [] {
      CodesMembers(os[1..]);
      assert os == [os[0]] + os[1..];
    }
  }

  lemma {:induction false} FailureEffectsMembers(fs: seq<FailureEntry>)
    ensures forall e :: e in FailureEffects(fs) <==> exists f :: f in fs && Failed(f.failure) == e
  {
    if fs != [] {
      FailureEffectsMembers(fs[1..]);
      assert fs == [fs[0]] + fs[1..];
    }
  }

  // ---- What the verdict says about the values ------------------------------

  predicate AllPermissive(values: seq<Effect>) {
    forall i :: 0 <= i < |values| ==> Permissive(EffectVerdictOf(values[i]))
  }

  lemma RoutedVerdict(values: seq<Effect>, v: Verdict)
    requires v == Block || v == RouteTo
    ensures RoutesOf(values, v) != [] <==> HasVerdict(values, v)
  {
    RoutesOfMembers(values, v);
    if RoutesOf(values, v) != [] {
      assert RoutesOf(values, v)[0] in RoutesOf(values, v);
      var e :| e in values && EffectVerdictOf(e) == v && EffectRoute(e) == Some(RoutesOf(values, v)[0]);
      var i :| 0 <= i < |values| && values[i] == e;
    }
    if HasVerdict(values, v) {
      var i :| 0 <= i < |values| && EffectVerdictOf(values[i]) == v;
      assert values[i] in values;
      assert EffectRoute(values[i]).value in RoutesOf(values, v);
    }
  }

  /** With neither a block, a route nor an approval among the values, the first outcome is an effect with a route. */
  lemma PermissiveHasBase(os: seq<Applied>, a: Assessment)
    requires os != []
    requires BlockRoutes(Values(os, a), a) == [] && RoutesOf(Values(os, a), RouteTo) == []
    requires !HasVerdict(Values(os, a), RequireApproval)
    ensures BaseRoutes(Values(os, a)) != []
  {
    var values := Values(os, a);
    assert values[0] == os[0].outcome && values[0] in values;
    RoutedVerdict(values, Block);
    RoutedVerdict(values, RouteTo);
    BaseRoutesMembers(values);
    assert values[0].Normal?;
    assert values[0].effect.route in BaseRoutes(values);
  }

  /** The verdict is permissive exactly when some control applied, independence held and every value is permissive. */
  lemma PermissiveIff(os: seq<Applied>, a: Assessment, canon: Canon)
    ensures Permissive(Compose(os, a, canon).verdict)
            <==> os != [] && !a.independenceFailed && AllPermissive(Values(os, a))
  {
    if os != [] {
      var values := Values(os, a);
      RoutedVerdict(values, Block);
      RoutedVerdict(values, RouteTo);
      PermissiveByVerdicts(values);
      UniqueEmptiness(RoutesOf(values, RouteTo), canon.route);
    }
  }

  lemma PermissiveByVerdicts(values: seq<Effect>)
    ensures AllPermissive(values)
            <==> !HasVerdict(values, Block) && !HasVerdict(values, RouteTo) && !HasVerdict(values, RequireApproval)
  {
    forall i | 0 <= i < |values|
      ensures EffectVerdictOf(values[i]) != Conflict
    {
      NoConflictEffect(values[i]);
    }
  }

  lemma NoConflictEffect(e: Effect)
    ensures EffectVerdictOf(e) != Conflict
  {
  }

  lemma UniqueEmptiness<T>(values: seq<T>, key: T -> string)
    ensures Unique(values, key) == [] <==> values == []
  {
  }

  /** The values are all permissive exactly when the outcomes are and the assessment adds nothing worse. */
  lemma ValuesPermissiveIff(os: seq<Applied>, a: Assessment)
    ensures !a.independenceFailed && AllPermissive(Values(os, a))
            <==> (forall o :: o in os ==> Permissive(EffectVerdictOf(o.outcome))) && Clean(a)
  {
    var values := Values(os, a);
    OutcomesMembers(os);
    AllByMembers(values);
    AllByMembers(a.profileOutcomes);
    assert forall e :: e in values <==> e in Outcomes(os) || e in FailureEffects(a.failures) || e in a.profileOutcomes;
    if a.failures != [] {
      FailureEffectsMembers(a.failures);
      assert a.failures[0] in a.failures;
      assert Failed(a.failures[0].failure) in values;
    }
  }

  lemma AllByMembers(values: seq<Effect>)
    ensures AllPermissive(values) <==> forall e :: e in values ==> Permissive(EffectVerdictOf(e))
  {
    if forall e :: e in values ==> Permissive(EffectVerdictOf(e)) {
      forall i | 0 <= i < |values|
        ensures Permissive(EffectVerdictOf(values[i]))
      {
        assert values[i] in values;
      }
    }
  }

  // ---- Order independence --------------------------------------------------

  ghost predicate SameMembers<T(!new)>(a: seq<T>, b: seq<T>) {
    forall x :: x in a <==> x in b
  }

  ghost predicate SameAssessment(a: Assessment, b: Assessment) {
    && SameMembers(a.failures, b.failures) && SameMembers(a.approvals, b.approvals)
    && SameMembers(a.evidence, b.evidence) && SameMembers(a.conditions, b.conditions)
    && SameMembers(a.codes, b.codes) && SameMembers(a.profileOutcomes, b.profileOutcomes)
    && a.independenceFailed == b.independenceFailed
  }

  lemma SameValues(os: seq<Applied>, a: Assessment, os': seq<Applied>, a': Assessment)
    requires SameMembers(os, os') && SameAssessment(a, a')
    ensures SameMembers(Values(os, a), Values(os', a'))
  {
    MoreValues(os, a, os', a');
    MoreValues(os', a', os, a);
  }

  lemma SameRoutes(values: seq<Effect>, values': seq<Effect>)
    requires SameMembers(values, values')
    ensures SameMembers(RoutesOf(values, Block), RoutesOf(values', Block))
    ensures SameMembers(RoutesOf(values, RouteTo), RoutesOf(values', RouteTo))
    ensures SameMembers(BaseRoutes(values), BaseRoutes(values'))
    ensures forall v :: HasVerdict(values, v) <==> HasVerdict(values', v)
  {
    RoutesOfMembers(values, Block);
    RoutesOfMembers(values', Block);
    RoutesOfMembers(values, RouteTo);
    RoutesOfMembers(values', RouteTo);
    BaseRoutesMembers(values);
    BaseRoutesMembers(values');
    forall v
      ensures HasVerdict(values, v) <==> HasVerdict(values', v)
    {
      if HasVerdict(values, v) {
        MoreVerdicts(values, values', v);
      }
      if HasVerdict(values', v) {
        MoreVerdicts(values', values, v);
      }
    }
  }

  lemma SameRuling(os: seq<Applied>, a: Assessment, os': seq<Applied>, a': Assessment, canon: Canon)
    requires canon.Faithful() && os != [] && os' != []
    requires SameMembers(os, os') && SameAssessment(a, a')
    ensures Rule(os, a, canon) == Rule(os', a', canon)
  {
    hide Values, RoutesOf, BaseRoutes, HasVerdict;
    var values, values' := Values(os, a), Values(os', a');
    SameValues(os, a, os', a');
    SameRoutes(values, values');
    UniqueOfSameMembers(BlockRoutes(values, a), BlockRoutes(values', a'), canon.route);
    UniqueOfSameMembers(RoutesOf(values, RouteTo), RoutesOf(values', RouteTo), canon.route);
    UniqueOfSameMembers(BaseRoutes(values), BaseRoutes(values'), canon.route);
    UniqueEmptiness(BlockRoutes(values, a), canon.route);
    UniqueEmptiness(BlockRoutes(values', a'), canon.route);
  }

  /** The composition depends only on which outcomes and assessment entries there are: any permutation, and any
      repetition, of any of the lists gives the same result. */
  lemma ComposeOrderIndependent(os: seq<Applied>, a: Assessment, os': seq<Applied>, a': Assessment, canon: Canon)
    requires canon.Faithful()
    requires SameMembers(os, os') && SameAssessment(a, a')
    ensures Compose(os, a, canon) == Compose(os', a', canon)
  {
    hide Rule;
    assert os != [] ==> os[0] in os;
    assert os' != [] ==> os'[0] in os';
    if os != [] && os' != [] {
      SameRuling(os, a, os', a', canon);
      var ruling := Rule(os, a, canon);
      RefsMembers(os);
      RefsMembers(os');
      CodesMembers(os);
      CodesMembers(os');
      ItselfInjective();
      UniqueOfSameMembers(a.conditions, a'.conditions, canon.condition);
      UniqueOfSameMembers(a.approvals, a'.approvals, canon.approval);
      UniqueOfSameMembers(a.evidence, a'.evidence, canon.evidence);
      UniqueOfSameMembers(Refs(os), Refs(os'), canon.control);
      UniqueOfSameMembers(Codes(os) + a.codes + [ruling.code], Codes(os') + a'.codes + [ruling.code], Itself);
    }
  }

  lemma ItselfInjective()
    ensures Injective(Itself)
  {
  }

  lemma PermutationSameMembers<T(!new)>(a: seq<T>, b: seq<T>)
    requires multiset(a) == multiset(b)
    ensures SameMembers(a, b)
  {
    forall x
      ensures x in a <==> x in b
    {
      assert x in multiset(a) <==> x in multiset(b);
    }
  }

  /** Rearranging outcomes and assessment lists in any way leaves the result the same. */
  lemma ComposeIgnoresOrder(os: seq<Applied>, a: Assessment, os': seq<Applied>, a': Assessment, canon: Canon)
    requires canon.Faithful() && multiset(os) == multiset(os') && a.independenceFailed == a'.independenceFailed
    requires multiset(a.failures) == multiset(a'.failures) && multiset(a.approvals) == multiset(a'.approvals)
    requires multiset(a.evidence) == multiset(a'.evidence) && multiset(a.conditions) == multiset(a'.conditions)
    requires multiset(a.codes) == multiset(a'.codes) && multiset(a.profileOutcomes) == multiset(a'.profileOutcomes)
    ensures Compose(os, a, canon) == Compose(os', a', canon)
  {
    hide Compose;
    PermutationSameMembers(os, os');
    PermutationSameMembers(a.failures, a'.failures);
    PermutationSameMembers(a.approvals, a'.approvals);
    PermutationSameMembers(a.evidence, a'.evidence);
    PermutationSameMembers(a.conditions, a'.conditions);
    PermutationSameMembers(a.codes, a'.codes);
    PermutationSameMembers(a.profileOutcomes, a'.profileOutcomes);
    ComposeOrderIndependent(os, a, os', a', canon);
  }

  // ---- Monotonicity --------------------------------------------------------

  /** From least to most restrictive. */
  function Rank(v: Verdict): nat {
    match v
    case Allow => 0
    case AllowWithConditions => 1
    case RequireApproval => 2
    case RouteTo => 3
    case Conflict => 4
    case Block => 5
  }

  ghost predicate Within<T(!new)>(a: seq<T>, b: seq<T>) {
    forall x :: x in a ==> x in b
  }

  ghost predicate WithinAssessment(a: Assessment, b: Assessment) {
    && Within(a.failures, b.failures) && Within(a.profileOutcomes, b.profileOutcomes)
    && (a.independenceFailed ==> b.independenceFailed)
  }

  lemma MoreValues(os: seq<Applied>, a: Assessment, os': seq<Applied>, a': Assessment)
    requires Within(os, os') && WithinAssessment(a, a')
    ensures Within(Values(os, a), Values(os', a'))
  {
    OutcomesMembers(os);
    OutcomesMembers(os');
    FailureEffectsMembers(a.failures);
    FailureEffectsMembers(a'.failures);
    assert forall e :: e in Values(os, a)
                       <==> e in Outcomes(os) || e in FailureEffects(a.failures) || e in a.profileOutcomes;
    assert forall e :: e in Values(os', a')
                       <==> e in Outcomes(os') || e in FailureEffects(a'.failures) || e in a'.profileOutcomes;
  }

  lemma MoreVerdicts(values: seq<Effect>, values': seq<Effect>, v: Verdict)
    requires Within(values, values') && HasVerdict(values, v)
    ensures HasVerdict(values', v)
  {
    var i :| 0 <= i < |values| && EffectVerdictOf(values[i]) == v;
    assert values[i] in values && values[i] in values';
    var j :| 0 <= j < |values'| && values'[j] == values[i];
  }

  lemma MoreDistinct(routes: seq<Route>, routes': seq<Route>, key: Route -> string)
    requires Injective(key) && Within(routes, routes')
    ensures |Unique(routes, key)| > 1 ==> |Unique(routes', key)| > 1
  {
    UniqueSpec(routes, key);
    UniqueSpec(routes', key);
    var u, u' := Unique(routes, key), Unique(routes', key);
    if |u| > 1 {
      assert u[0] in u && u[1] in u && u[0] in u' && u[1] in u';
      assert Less(key(u[0]), key(u[1]));
      LessIrreflexive(key(u[0]));
      assert u[0] != u[1];
    }
  }

  /** How the verdict reads off the values. */
  lemma VerdictByValues(os: seq<Applied>, a: Assessment, canon: Canon)
    requires os != []
    ensures var values := Values(os, a);
            Compose(os, a, canon).verdict
            == if HasVerdict(values, Block) || a.independenceFailed then Block
               else if |Unique(RoutesOf(values, RouteTo), canon.route)| > 1 then Conflict
               else if HasVerdict(values, RouteTo) then RouteTo
               else if HasVerdict(values, RequireApproval) then RequireApproval
               else if HasVerdict(values, AllowWithConditions) then AllowWithConditions
               else Allow
  {
    hide Values, HasVerdict, RoutesOf, BaseRoutes;
    RoutedVerdict(Values(os, a), Block);
    RoutedVerdict(Values(os, a), RouteTo);
    UniqueEmptiness(RoutesOf(Values(os, a), RouteTo), canon.route);
  }

  lemma BlockIsHighest(os: seq<Applied>, a: Assessment, os': seq<Applied>, a': Assessment, canon: Canon)
    requires os == []
    ensures Rank(Compose(os, a, canon).verdict) <= Rank(Compose(os', a', canon).verdict)
            <==> Compose(os', a', canon).verdict == Block
  {
    hide Rule;
  }

  /** Adding outcomes, failures or profile outcomes, or failing independence, never lowers the verdict, except that of
      the empty selection, which blocks: there, exactly additions that do not themselves block lower it. */
  lemma ComposeMonotone(os: seq<Applied>, a: Assessment, os': seq<Applied>, a': Assessment, canon: Canon)
    requires canon.Faithful() && Within(os, os') && WithinAssessment(a, a')
    ensures Rank(Compose(os, a, canon).verdict) <= Rank(Compose(os', a', canon).verdict)
            <==> os != [] || Compose(os', a', canon).verdict == Block
  {
    hide Values, HasVerdict, RoutesOf, Compose;
    if os == [] {
      BlockIsHighest(os, a, os', a', canon);
      return;
    }
    var values, values' := Values(os, a), Values(os', a');
    assert os[0] in os && os[0] in os';
    MoreValues(os, a, os', a');
    VerdictByValues(os, a, canon);
    VerdictByValues(os', a', canon);
    forall v | HasVerdict(values, v)
      ensures HasVerdict(values', v)
    {
      MoreVerdicts(values, values', v);
    }
    RoutesOfMembers(values, RouteTo);
    RoutesOfMembers(values', RouteTo);
    MoreDistinct(RoutesOf(values, RouteTo), RoutesOf(values', RouteTo), canon.route);
    assert HasVerdict(values', AllowWithConditions) || !HasVerdict(values, AllowWithConditions);
    assert HasVerdict(values', RequireApproval) || !HasVerdict(values, RequireApproval);
    assert HasVerdict(values', RouteTo) || !HasVerdict(values, RouteTo);
    assert HasVerdict(values', Block) || !HasVerdict(values, Block);
  }
}
