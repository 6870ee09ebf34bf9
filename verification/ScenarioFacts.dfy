/** The fact provider that resolves a request to one exact scenario of an immutable release. */
module ScenarioFacts {
  import opened Wrappers
  import opened Contracts

  /** `retained` holds the bound fields that no branch reads. */
  datatype Scenario = Scenario(releaseId: string, fixtureId: string, portable: bool, selection: Json,
                               referenceTime: int, intent: ActionIntent, controlRefs: seq<ControlRef>,
                               basis: Option<Decision>, approvals: seq<ApprovalFact>, retained: Json,
                               digest: Option<ScenarioDigest>)

  datatype ScenarioDigest = OfScenario(scenario: Scenario)

  predicate VerifiedScenario(s: Scenario) { s.digest == Some(OfScenario(s.(digest := None))) }

  datatype Fixture = Unmatched(releaseId: string, catalogDigest: Digest) | Matched(scenario: ScenarioDigest)

  datatype FactSet = FactSet(fixture: Fixture, facts: EvaluationFacts)

  datatype Context = Context(releaseId: string, catalogDigest: Digest, selection: Json, selectionDigest: Digest,
                             observedAt: int, intent: ActionIntent, snapshot: Snapshot, prior: Option<Decision>)

  datatype FactError =
    | ForeignRelease
    | ScenarioTampered
    | ControlUnbound
    | AmbiguousScenario
    | PriorUnbound
    | LeafDiffers
    | ProviderFailed

  /** A profile's own provider, loaded for one scenario. */
  type Provider = (ActionIntent, Snapshot, Option<Decision>) -> Result<FactSet, FactError>

  /** An immutable release and how providers are loaded for its scenarios. */
  datatype Release = Release(releaseId: string, catalogDigest: Digest, scenarios: seq<Scenario>,
                             load: Scenario -> Provider)

  // ---- Matching ------------------------------------------------------------

  function RefsOfControls(controls: seq<Control>): Option<seq<ControlRef>> {
    if controls == [] then Some([])
    else
      var c := controls[0];
      match RefsOfControls(controls[1..])
      case Some(rest) =>
        if c.digest.None? then None else Some([ControlRef(c.ns, c.controlId, c.version, c.digest.value)] + rest)
      case None => None
  }

  /** The scenario is for this release, selection, time and intent. */
  predicate Concerns(s: Scenario, c: Context) {
    && s.releaseId == c.releaseId && s.selection == c.selection && OfJson(s.selection) == c.selectionDigest
    && s.referenceTime == c.observedAt && s.intent == c.intent
  }

  /** One scenario: it fails its check, cannot be compared, matches, or does not. */
  function Judged(s: Scenario, c: Context): Result<bool, FactError> {
    if !VerifiedScenario(s) then Err(ScenarioTampered)
    else if !Concerns(s, c) then Ok(false)
    else
      match RefsOfControls(c.snapshot.controls)
      case None => Err(ControlUnbound)
      case Some(refs) => Ok(refs == s.controlRefs)
  }

  /** The matching scenarios in release order, or the first error. */
  function Matches(scenarios: seq<Scenario>, c: Context): Result<seq<Scenario>, FactError> {
    if scenarios == [] then Ok([])
    else
      var n := |scenarios| - 1;
      match Matches(scenarios[..n], c)
      case Err(e) => Err(e)
      case Ok(found) =>
        match Judged(scenarios[n], c)
        case Err(e) => Err(e)
        case Ok(matched) => Ok(if matched then found + [scenarios[n]] else found)
  }

  // ---- The answer ----------------------------------------------------------

  const NO_FACTS := EvaluationFacts(None, [], [], [])

  function PortableFacts(s: Scenario): Result<FactSet, FactError>
    requires s.digest.Some?
  {
    match s.basis
    case None => Ok(FactSet(Matched(s.digest.value), NO_FACTS.(approvals := s.approvals)))
    case Some(d) =>
      if d.digest.None? then Err(PriorUnbound)
      else
        Ok(FactSet(Matched(s.digest.value),
                   NO_FACTS.(basis := Some(DecisionRef(d.ns, d.decisionId, d.digest.value)), approvals := s.approvals)))
  }

  /** A provider's answer counts only under the digest of the scenario it was loaded for. */
  function LeafFacts(s: Scenario, c: Context, provider: Provider): Result<FactSet, FactError> {
    match provider(c.intent, c.snapshot, c.prior)
    case Err(e) => Err(e)
    case Ok(facts) =>
      if s.digest.Some? && facts.fixture == Matched(s.digest.value) then Ok(facts) else Err(LeafDiffers)
  }

  /** What a release answers in a context, loading providers afresh. */
  function Resolve(r: Release, c: Context): Result<FactSet, FactError> {
    if c.releaseId != r.releaseId || c.catalogDigest != r.catalogDigest then Err(ForeignRelease)
    else
      match Matches(r.scenarios, c)
      case Err(e) => Err(e)
      case Ok(found) =>
        if found == [] then Ok(FactSet(Unmatched(c.releaseId, c.catalogDigest), NO_FACTS))
        else if |found| != 1 then Err(AmbiguousScenario)
        else if found[0].portable then
          MatchesAreVerified(r.scenarios, c);
          assert found[0] in found;
          PortableFacts(found[0])
        else LeafFacts(found[0], c, r.load(found[0]))
  }

  lemma {:induction false} MatchesAreVerified(scenarios: seq<Scenario>, c: Context)
    requires Matches(scenarios, c).Ok?
    ensures forall s :: s in Matches(scenarios, c).value ==> s in scenarios && VerifiedScenario(s)
  {
    if scenarios != [] {
      MatchesAreVerified(scenarios[..|scenarios| - 1], c);
    }
  }

  // ---- The provider object -------------------------------------------------

  class ScenarioProvider {
    const release: Release
    var providers: map<ScenarioDigest, Provider>

    constructor (release: Release)
      ensures this.release == release && CacheSound()
    {
      this.release := release;
      providers := map[];
    }

    /** A cached provider is the one that would be loaded for the scenario its digest is of. */
    ghost predicate CacheSound()
      reads this
    {
      forall d :: d in providers ==> providers[d] == release.load(d.scenario.(digest := Some(d)))
    }

    method ProviderFor(s: Scenario) returns (provider: Provider)
      requires CacheSound() && VerifiedScenario(s)
      modifies this
      ensures CacheSound() && provider == release.load(s)
    {
      var d := s.digest.value;
      assert s == d.scenario.(digest := Some(d));
      if d !in providers {
        providers := providers[d := release.load(s)];
      }
      provider := providers[d];
    }

    /** Whatever was asked before, the answer is the release's. */
    method FactsFor(c: Context) returns (r: Result<FactSet, FactError>)
      requires CacheSound()
      modifies this
      ensures CacheSound() && r == Resolve(release, c)
    {
      hide Judged, PortableFacts;
      if c.releaseId != release.releaseId || c.catalogDigest != release.catalogDigest {
        return Err(ForeignRelease);
      }
      var scenarios := release.scenarios;
      var found: seq<Scenario> := [];
      for k := 0 to |scenarios|
        invariant CacheSound() && Matches(scenarios[..k], c) == Ok(found)
      {
        assert scenarios[..k + 1][..k] == scenarios[..k];
        var judged := Judged(scenarios[k], c);
        if judged.Err? {
          FirstError(scenarios, k + 1, c);
          return Err(judged.error);
        }
        if judged.value {
          found := found + [scenarios[k]];
        }
      }
      assert scenarios[..|scenarios|] == scenarios;
      MatchesAreVerified(scenarios, c);
      if found == [] {
        return Ok(FactSet(Unmatched(c.releaseId, c.catalogDigest), NO_FACTS));
      }
      if |found| != 1 {
        return Err(AmbiguousScenario);
      }
      var s := found[0];
      assert s in found;
      if s.portable {
        return PortableFacts(s);
      }
      var provider := ProviderFor(s);
      r := LeafFacts(s, c, provider);
    }
  }

  lemma {:induction false} FirstError(scenarios: seq<Scenario>, k: nat, c: Context)
    requires k <= |scenarios| && Matches(scenarios[..k], c).Err?
    ensures Matches(scenarios, c) == Matches(scenarios[..k], c)
  {
    if k == |scenarios| {
      assert scenarios[..k] == scenarios;
    } else {
      var n := |scenarios| - 1;
      assert scenarios[..n][..k] == scenarios[..k];
      FirstError(scenarios[..n], k, c);
    }
  }

  // ---- Laws ----------------------------------------------------------------

  /** A provider that reads nothing from the decision it is told about. */
  ghost predicate IgnoresPrior(p: Provider) {
    forall i, s, a, b :: p(i, s, a) == p(i, s, b)
  }

  lemma {:induction false} MatchesIgnorePrior(scenarios: seq<Scenario>, c: Context, prior: Option<Decision>)
    ensures Matches(scenarios, c.(prior := prior)) == Matches(scenarios, c)
  {
    if scenarios != [] {
      MatchesIgnorePrior(scenarios[..|scenarios| - 1], c, prior);
    }
  }

  /** Recheck gets the facts the decision got: the answer does not depend on the prior decision. */
  lemma AnswerIgnoresPrior(r: Release, c: Context, prior: Option<Decision>)
    requires forall s :: s in r.scenarios ==> IgnoresPrior(r.load(s))
    ensures Resolve(r, c.(prior := prior)) == Resolve(r, c)
  {
    hide Judged, VerifiedScenario, PortableFacts;
    MatchesIgnorePrior(r.scenarios, c, prior);
    if Matches(r.scenarios, c).Ok? {
      MatchesAreVerified(r.scenarios, c);
      var found := Matches(r.scenarios, c).value;
      if |found| == 1 {
        assert found[0] in found;
        assert IgnoresPrior(r.load(found[0]));
      }
    }
  }

  /** With every scenario intact and every control bound, the matches are the release's matching scenarios, each as
      often as it is there. */
  lemma {:induction false} MatchesCounted(scenarios: seq<Scenario>, c: Context, s: Scenario)
    requires Matches(scenarios, c).Ok?
    ensures multiset(Matches(scenarios, c).value)[s] == if Judged(s, c) == Ok(true) then multiset(scenarios)[s] else 0
  {
    hide Judged;
    if scenarios != [] {
      var n := |scenarios| - 1;
      MatchesCounted(scenarios[..n], c, s);
      assert scenarios == scenarios[..n] + [scenarios[n]];
    }
  }

  lemma {:induction false} MatchesFailIff(scenarios: seq<Scenario>, c: Context)
    ensures Matches(scenarios, c).Ok? <==> forall s :: s in scenarios ==> Judged(s, c).Ok?
  {
    hide Judged;
    if scenarios != [] {
      var n := |scenarios| - 1;
      MatchesFailIff(scenarios[..n], c);
      assert scenarios == scenarios[..n] + [scenarios[n]];
    }
  }

  /** The order in which a release lists its scenarios never changes a successful answer. */
  lemma AnswerIgnoresOrder(r: Release, r': Release, c: Context)
    requires multiset(r.scenarios) == multiset(r'.scenarios) && r' == r.(scenarios := r'.scenarios)
    ensures Resolve(r, c).Ok? || Resolve(r', c).Ok? ==> Resolve(r', c) == Resolve(r, c)
  {
    hide Judged, PortableFacts, VerifiedScenario, LeafFacts;
    forall s: Scenario
      ensures s in r.scenarios <==> s in r'.scenarios
    {
      assert s in r.scenarios <==> s in multiset(r.scenarios);
    }
    MatchesFailIff(r.scenarios, c);
    MatchesFailIff(r'.scenarios, c);
    if Matches(r.scenarios, c).Ok? {
      var a, b := Matches(r.scenarios, c).value, Matches(r'.scenarios, c).value;
      forall s: Scenario
        ensures multiset(a)[s] == multiset(b)[s]
      {
        MatchesCounted(r.scenarios, c, s);
        MatchesCounted(r'.scenarios, c, s);
      }
      SameSingle(a, b);
    }
  }

  lemma SameSingle(a: seq<Scenario>, b: seq<Scenario>)
    requires multiset(a) == multiset(b)
    ensures |a| == |b| && (|a| == 1 ==> a == b)
  {
    assert |multiset(a)| == |a| && |multiset(b)| == |b|;
    if |a| == 1 {
      assert a[0] in multiset(b);
    }
  }

  // ---- The answer, of the scenarios' own fields ----------------------------

  predicate Genuine(s: Scenario) { s.digest == Some(OfScenario(s.(digest := None))) }

  /** The scenario is for exactly this release, selection, time and intent. */
  predicate IsFor(s: Scenario, c: Context) {
    && s.releaseId == c.releaseId && s.selection == c.selection && c.selectionDigest == OfJson(c.selection)
    && s.referenceTime == c.observedAt && s.intent == c.intent
  }

  predicate AllBound(controls: seq<Control>) {
    forall k :: 0 <= k < |controls| ==> controls[k].digest.Some?
  }

  /** The scenario lists exactly the controls of the snapshot, in their order. */
  predicate Lists(s: Scenario, controls: seq<Control>) {
    |s.controlRefs| == |controls|
    && forall k :: 0 <= k < |controls|
         ==> && s.controlRefs[k].ns == controls[k].ns && s.controlRefs[k].controlId == controls[k].controlId
             && s.controlRefs[k].version == controls[k].version && Some(s.controlRefs[k].digest) == controls[k].digest
  }

  predicate Matching(s: Scenario, c: Context) {
    Genuine(s) && IsFor(s, c) && Lists(s, c.snapshot.controls)
  }

  lemma {:induction false} RefsIff(controls: seq<Control>)
    ensures RefsOfControls(controls).Some? <==> AllBound(controls)
    ensures RefsOfControls(controls).Some?
            ==> && |RefsOfControls(controls).value| == |controls|
                && forall k :: 0 <= k < |controls|
                     ==> RefsOfControls(controls).value[k]
                         == ControlRef(controls[k].ns, controls[k].controlId, controls[k].version,
                                       controls[k].digest.value)
  {
    if controls != [] {
      RefsIff(controls[1..]);
      assert forall k :: 0 <= k < |controls| - 1 ==> controls[1..][k] == controls[k + 1];
      if AllBound(controls[1..]) && controls[0].digest.Some? {
        forall k | 0 <= k < |controls|
          ensures controls[k].digest.Some?
        {
          assert k > 0 ==> controls[1..][k - 1].digest.Some?;
        }
      }
    }
  }

  lemma JudgedIff(s: Scenario, c: Context)
    ensures Judged(s, c).Ok? <==> Genuine(s) && (IsFor(s, c) ==> AllBound(c.snapshot.controls))
    ensures Judged(s, c) == Ok(true) <==> Matching(s, c)
  {
    hide RefsOfControls;
    RefsIff(c.snapshot.controls);
    if AllBound(c.snapshot.controls) && Lists(s, c.snapshot.controls) {
      assert RefsOfControls(c.snapshot.controls).value == s.controlRefs;
    }
  }

  /** At this place stands the one matching scenario. */
  predicate OnlyMatch(scenarios: seq<Scenario>, c: Context, k: nat)
    requires k < |scenarios|
  {
    Matching(scenarios[k], c) && forall j :: 0 <= j < |scenarios| && j != k ==> !Matching(scenarios[j], c)
  }

  lemma LastMatches(scenarios: seq<Scenario>, c: Context)
    requires scenarios != [] && Matching(scenarios[|scenarios| - 1], c)
    ensures var n := |scenarios| - 1;
            && (OnlyMatch(scenarios, c, n) <==> forall s :: s in scenarios[..n] ==> !Matching(s, c))
            && (forall k :: 0 <= k < n ==> !OnlyMatch(scenarios, c, k))
  {
    hide Matching;
    assert forall j :: 0 <= j < |scenarios| - 1 ==> scenarios[j] in scenarios[..|scenarios| - 1];
  }

  lemma LastMatchesNot(scenarios: seq<Scenario>, c: Context)
    requires scenarios != [] && !Matching(scenarios[|scenarios| - 1], c)
    ensures var n := |scenarios| - 1;
            && !OnlyMatch(scenarios, c, n)
            && (forall k :: 0 <= k < n ==> (OnlyMatch(scenarios, c, k) <==> OnlyMatch(scenarios[..n], c, k)))
  {
    hide Matching;
  }

  lemma SingleAppend<T>(xs: seq<T>, x: T, y: T)
    ensures xs + [x] == [y] <==> xs == [] && x == y
  {
    var all := xs + [x];
    assert |all| == |xs| + 1 && all[|xs|] == x;
  }

  lemma {:induction false} OneFound(scenarios: seq<Scenario>, c: Context)
    requires Matches(scenarios, c).Ok?
    ensures Matches(scenarios, c).value == [] <==> forall s :: s in scenarios ==> !Matching(s, c)
    ensures forall s :: Matches(scenarios, c).value == [s]
                        <==> exists k :: 0 <= k < |scenarios| && OnlyMatch(scenarios, c, k) && scenarios[k] == s
  {
    hide Judged, Matching, OnlyMatch;
    if scenarios != [] {
      var n := |scenarios| - 1;
      var before := scenarios[..n];
      OneFound(before, c);
      JudgedIff(scenarios[n], c);
      assert scenarios == before + [scenarios[n]];
      var found := Matches(before, c).value;
      if Matching(scenarios[n], c) {
        LastMatches(scenarios, c);
        forall s
          ensures found + [scenarios[n]] == [s] <==> found == [] && scenarios[n] == s
        {
          SingleAppend(found, scenarios[n], s);
        }
      } else {
        LastMatchesNot(scenarios, c);
      }
    }
  }

  /** What the facts of a matching scenario are: its own, or those of its provider under its digest. */
  predicate FactsOf(r: Release, c: Context, s: Scenario, f: FactSet) {
    && s.digest.Some? && f.fixture == Matched(s.digest.value)
    && if !s.portable then r.load(s)(c.intent, c.snapshot, c.prior) == Ok(f)
       else
         && f.facts.approvals == s.approvals && f.facts.evidence == [] && f.facts.profiles == []
         && (s.basis.None? <==> f.facts.basis.None?)
         && (s.basis.Some? ==> && f.facts.basis.value.ns == s.basis.value.ns
                               && f.facts.basis.value.decisionId == s.basis.value.decisionId
                               && Some(f.facts.basis.value.digest) == s.basis.value.digest)
  }

  lemma FactsOfIff(r: Release, c: Context, s: Scenario, f: FactSet)
    requires s.digest.Some?
    ensures FactsOf(r, c, s, f)
            <==> (if s.portable then PortableFacts(s) else LeafFacts(s, c, r.load(s))) == Ok(f)
  {
    if s.portable && s.basis.Some? && f.facts.basis.Some? {
      var b := f.facts.basis.value;
      assert b == DecisionRef(b.ns, b.decisionId, b.digest);
    }
    assert f == FactSet(f.fixture, f.facts);
    assert f.facts == EvaluationFacts(f.facts.basis, f.facts.approvals, f.facts.evidence, f.facts.profiles);
  }

  /** When a release answers, and what: the context is its own, every scenario is genuine, and either none matches and
      the answer is empty, or exactly one does and the answer is its facts. In every other case there is no answer. */
  lemma AnswersIff(r: Release, c: Context, f: FactSet)
    ensures Resolve(r, c) == Ok(f)
            <==> && c.releaseId == r.releaseId && c.catalogDigest == r.catalogDigest
                 && (forall s :: s in r.scenarios
                       ==> Genuine(s) && (IsFor(s, c) ==> AllBound(c.snapshot.controls)))
                 && if forall s :: s in r.scenarios ==> !Matching(s, c) then
                      && f.fixture == Unmatched(c.releaseId, c.catalogDigest)
                      && f.facts == EvaluationFacts(None, [], [], [])
                    else
                      exists k :: 0 <= k < |r.scenarios| && OnlyMatch(r.scenarios, c, k)
                                  && FactsOf(r, c, r.scenarios[k], f)
  {
    hide Judged, Matching, PortableFacts, LeafFacts, IsFor, AllBound, Genuine, FactsOf, OnlyMatch;
    forall s: Scenario
      ensures Judged(s, c).Ok? <==> Genuine(s) && (IsFor(s, c) ==> AllBound(c.snapshot.controls))
    {
      JudgedIff(s, c);
    }
    MatchesFailIff(r.scenarios, c);
    if Matches(r.scenarios, c).Ok? {
      var found := Matches(r.scenarios, c).value;
      OneFound(r.scenarios, c);
      MatchesAreVerified(r.scenarios, c);
      if |found| == 1 {
        assert found == [found[0]] && found[0] in found;
        FactsOfIff(r, c, found[0], f);
      }
      forall k | 0 <= k < |r.scenarios| && OnlyMatch(r.scenarios, c, k)
        ensures found == [r.scenarios[k]]
      {
      }
    }
  }
}
