/** Snapshot validation, effective control selection and predicate routing. */
module Selection {
  import opened Wrappers
  import opened Contracts
  import opened Ordering
  import opened Pointer
  import opened Predicates

  datatype EvaluationError =
    | IntentDigestInvalid
    | SnapshotDigestInvalid
    | ControlDigestInvalid
    | VerifierUnsupported
    | IdentityReused
    | PointerInvalid(cause: PointerError)
    | FactDigestInvalid
    | ProfileInconsistent
    | DecisionInvalid
    | TraceInvalid

  /** The canonical encodings used as sort keys. RFC 8785 gives each value its own text. */
  datatype Canon = Canon(outcome: ControlRef -> string,
                         control: ControlRef -> string,
                         route: Route -> string,
                         condition: ConditionResult -> string,
                         approval: ApprovalRequirement -> string,
                         evidence: EvidenceRequirement -> string)
  {
    ghost predicate Faithful() {
      && Injective(control) && Injective(route) && Injective(condition)
      && Injective(approval) && Injective(evidence)
    }
  }

  /** A control that applied, the effect it contributes, and how its predicates came out. */
  datatype Applied = Applied(control: Control, ref: ControlRef, outcome: Effect,
                             results: seq<PredicateResult>, unknown: bool)

  // ---- Snapshot validation -------------------------------------------------

  function UsedVerifiers(c: Control): set<string> {
    (set i | 0 <= i < |c.effect.conditions| :: c.effect.conditions[i].verifier)
    + (set i | 0 <= i < |c.effect.requirements| && c.effect.requirements[i].NeedsEvidence?
         :: c.effect.requirements[i].evidence.verifier)
    + (set i | 0 <= i < |c.effect.requirements| && c.effect.requirements[i].NeedsProfile?
         :: c.effect.requirements[i].profile.verifier)
  }

  type Identity = (string, string, string)

  function IdentityOf(c: Control): Identity { (c.ns, c.controlId, c.version) }

  /** The first thing wrong with the controls, given the identities already seen. */
  function ControlsError(controls: seq<Control>, supported: set<string>, seen: map<Identity, Option<Digest>>)
    : Option<EvaluationError>
  {
    if controls == [] then None
    else
      var c := controls[0];
      if !VerifiedControl(c) then Some(ControlDigestInvalid)
      else if !(UsedVerifiers(c) <= supported) then Some(VerifierUnsupported)
      else if IdentityOf(c) in seen && seen[IdentityOf(c)] != c.digest then Some(IdentityReused)
      else ControlsError(controls[1..], supported,
                         if IdentityOf(c) in seen then seen else seen[IdentityOf(c) := c.digest])
  }

  function SnapshotError(s: Snapshot): Option<EvaluationError> {
    if !VerifiedSnapshot(s) then Some(SnapshotDigestInvalid)
    else ControlsError(s.controls, s.supportedVerifiers, map[])
  }

  method ValidateSnapshot(s: Snapshot) returns (error: Option<EvaluationError>)
    ensures error == SnapshotError(s)
  {
    if !VerifiedSnapshot(s) {
      return Some(SnapshotDigestInvalid);
    }
    var identities: map<Identity, Option<Digest>> := map[];
    assert s.controls[0..] == s.controls;
    for i := 0 to |s.controls|
      invariant SnapshotError(s) == ControlsError(s.controls[i..], s.supportedVerifiers, identities)
    {
      var control := s.controls[i];
      assert s.controls[i..][1..] == s.controls[i + 1..];
      if !VerifiedControl(control) {
        return Some(ControlDigestInvalid);
      }
      if !(UsedVerifiers(control) <= s.supportedVerifiers) {
        return Some(VerifierUnsupported);
      }
      if IdentityOf(control) !in identities {
        identities := identities[IdentityOf(control) := control.digest];
      }
      if identities[IdentityOf(control)] != control.digest {
        return Some(IdentityReused);
      }
    }
    error := None;
  }

  /** Every verifier that a condition or a requirement of the control names is supported. */
  predicate Supports(c: Control, supported: set<string>) {
    && (forall x :: x in c.effect.conditions ==> x.verifier in supported)
    && (forall q :: q in c.effect.requirements && q.NeedsEvidence? ==> q.evidence.verifier in supported)
    && (forall q :: q in c.effect.requirements && q.NeedsProfile? ==> q.profile.verifier in supported)
  }

  predicate SameIdentity(c: Control, c': Control) {
    c.ns == c'.ns && c.controlId == c'.controlId && c.version == c'.version
  }

  lemma SupportsIff(c: Control, supported: set<string>)
    ensures UsedVerifiers(c) <= supported <==> Supports(c, supported)
  {
    if UsedVerifiers(c) <= supported {
      forall x | x in c.effect.conditions
        ensures x.verifier in supported
      {
        var i :| 0 <= i < |c.effect.conditions| && c.effect.conditions[i] == x;
        assert x.verifier in UsedVerifiers(c);
      }
      forall q | q in c.effect.requirements && (q.NeedsEvidence? || q.NeedsProfile?)
        ensures (if q.NeedsEvidence? then q.evidence.verifier else q.profile.verifier) in supported
      {
        var i :| 0 <= i < |c.effect.requirements| && c.effect.requirements[i] == q;
        assert (if q.NeedsEvidence? then q.evidence.verifier else q.profile.verifier) in UsedVerifiers(c);
      }
    }
  }

  lemma SameDigest(a: Control, b: Control)
    requires VerifiedControl(a) && VerifiedControl(b) && a.digest == b.digest
    ensures a == b
  {
    assert a.(digest := None) == b.(digest := None);
    assert a == a.(digest := None).(digest := a.digest);
    assert b == b.(digest := None).(digest := b.digest);
  }

  /** What a snapshot that passes validation guarantees about its controls. */
  ghost predicate ControlsSound(controls: seq<Control>, supported: set<string>) {
    && (forall c :: c in controls ==> VerifiedControl(c) && Supports(c, supported))
    && (forall c, c' :: c in controls && c' in controls && SameIdentity(c, c') ==> c == c')
  }

  ghost predicate SeenAgrees(controls: seq<Control>, seen: map<Identity, Option<Digest>>) {
    forall c :: c in controls && IdentityOf(c) in seen ==> seen[IdentityOf(c)] == c.digest
  }

  lemma {:induction false} ControlsErrorIff(controls: seq<Control>, supported: set<string>,
                                           seen: map<Identity, Option<Digest>>)
    ensures ControlsError(controls, supported, seen).None?
            <==> ControlsSound(controls, supported) && SeenAgrees(controls, seen)
  {
    hide UsedVerifiers, Supports;
    if controls != [] {
      var c, rest := controls[0], controls[1..];
      assert controls == [c] + rest;
      SupportsIff(c, supported);
      var seen' := if IdentityOf(c) in seen then seen else seen[IdentityOf(c) := c.digest];
      ControlsErrorIff(rest, supported, seen');
      var agrees := IdentityOf(c) in seen ==> seen[IdentityOf(c)] == c.digest;
      if VerifiedControl(c) && UsedVerifiers(c) <= supported && agrees {
        HeadAgrees(c, rest, supported, seen, seen');
      }
    }
  }

  lemma HeadAgrees(c: Control, rest: seq<Control>, supported: set<string>,
                   seen: map<Identity, Option<Digest>>, seen': map<Identity, Option<Digest>>)
    requires VerifiedControl(c) && UsedVerifiers(c) <= supported
    requires IdentityOf(c) in seen ==> seen[IdentityOf(c)] == c.digest
    requires seen' == if IdentityOf(c) in seen then seen else seen[IdentityOf(c) := c.digest]
    ensures ControlsSound(rest, supported) && SeenAgrees(rest, seen')
            <==> ControlsSound([c] + rest, supported) && SeenAgrees([c] + rest, seen)
  {
    hide UsedVerifiers, Supports;
    var all := [c] + rest;
    assert forall x :: x in all <==> x == c || x in rest;
    SupportsIff(c, supported);
    assert forall x :: SameIdentity(x, c) <==> IdentityOf(x) == IdentityOf(c);
    if ControlsSound(rest, supported) && SeenAgrees(rest, seen') {
      forall x | x in rest && IdentityOf(x) == IdentityOf(c)
        ensures x == c
      {
        SameDigest(x, c);
      }
    }
  }

  /** A snapshot validates exactly when its digest is its own, every control's digest is its own and its verifiers
      are supported, and no identity stands for two controls. */
  lemma SnapshotValidIff(s: Snapshot)
    ensures SnapshotError(s).None? <==> VerifiedSnapshot(s) && ControlsSound(s.controls, s.supportedVerifiers)
  {
    ControlsErrorIff(s.controls, s.supportedVerifiers, map[]);
  }

  /** The first control that is not as the ones before it, and what is wrong with it. */
  ghost predicate FirstFault(controls: seq<Control>, k: nat, supported: set<string>, e: EvaluationError)
    requires k < |controls|
  {
    && ControlsSound(controls[..k], supported)
    && var c := controls[k];
       if !VerifiedControl(c) then e == ControlDigestInvalid
       else if !Supports(c, supported) then e == VerifierUnsupported
       else e == IdentityReused && exists c' :: c' in controls[..k] && SameIdentity(c, c') && c != c'
  }

  /** The identities of sound controls, each with its digest. */
  ghost predicate SeenIn(controls: seq<Control>, seen: map<Identity, Option<Digest>>) {
    && (forall c :: c in controls ==> IdentityOf(c) in seen && seen[IdentityOf(c)] == c.digest)
    && (forall x :: x in seen ==> exists c :: c in controls && IdentityOf(c) == x)
  }

  lemma {:induction false} FaultAfter(controls: seq<Control>, n: nat, supported: set<string>,
                                      seen: map<Identity, Option<Digest>>, e: EvaluationError)
    requires n <= |controls| && ControlsSound(controls[..n], supported) && SeenIn(controls[..n], seen)
    ensures ControlsError(controls[n..], supported, seen) == Some(e)
            <==> exists k :: n <= k < |controls| && FirstFault(controls, k, supported, e)
    decreases |controls| - n
  {
    hide UsedVerifiers, Supports, VerifiedControl, ControlsSound, SeenIn;
    if n < |controls| {
      var c, rest := controls[n], controls[n..];
      assert rest[0] == c && rest[1..] == controls[n + 1..] && controls[..n + 1] == controls[..n] + [c];
      SupportsIff(c, supported);
      StepSound(controls[..n], c, supported, seen);
      if SoundWith(controls[..n], c, supported) {
        FaultAfter(controls, n + 1, supported, if IdentityOf(c) in seen then seen else seen[IdentityOf(c) := c.digest],
                   e);
        assert !FirstFault(controls, n, supported, e);
      } else {
        forall k | n < k < |controls|
          ensures !FirstFault(controls, k, supported, e)
        {
          if FirstFault(controls, k, supported, e) {
            PrefixSound(controls, n + 1, k, supported);
          }
        }
        assert ControlsError(rest, supported, seen) == Some(e) <==> FirstFault(controls, n, supported, e);
      }
    }
  }

  /** A control that may follow the ones before it. */
  ghost predicate SoundWith(controls: seq<Control>, c: Control, supported: set<string>) {
    VerifiedControl(c) && Supports(c, supported) && forall c' :: c' in controls && SameIdentity(c, c') ==> c == c'
  }

  lemma StepSound(controls: seq<Control>, c: Control, supported: set<string>, seen: map<Identity, Option<Digest>>)
    requires ControlsSound(controls, supported) && SeenIn(controls, seen)
    ensures ControlsSound(controls + [c], supported) <==> SoundWith(controls, c, supported)
    ensures SoundWith(controls, c, supported)
            <==> && VerifiedControl(c) && Supports(c, supported)
                 && (IdentityOf(c) in seen ==> seen[IdentityOf(c)] == c.digest)
    ensures SoundWith(controls, c, supported)
            ==> SeenIn(controls + [c], if IdentityOf(c) in seen then seen else seen[IdentityOf(c) := c.digest])
  {
    hide Supports;
    assert forall x :: x in controls + [c] <==> x == c || x in controls;
    if VerifiedControl(c) {
      forall c' | c' in controls && c'.digest == c.digest
        ensures c' == c
      {
        SameDigest(c, c');
      }
    }
  }

  lemma PrefixSound(controls: seq<Control>, n: nat, k: nat, supported: set<string>)
    requires n <= k <= |controls| && ControlsSound(controls[..k], supported)
    ensures ControlsSound(controls[..n], supported)
  {
    hide Supports, VerifiedControl;
    assert controls[..n] == controls[..k][..n];
  }

  /** Which error a snapshot gets: its own digest first, then the first control that cannot follow the ones before it,
      for its digest, else for its verifiers, else for standing for another control's identity. */
  lemma SnapshotFault(s: Snapshot, e: EvaluationError)
    ensures SnapshotError(s) == Some(e)
            <==> if !VerifiedSnapshot(s) then e == SnapshotDigestInvalid
                 else exists k :: 0 <= k < |s.controls| && FirstFault(s.controls, k, s.supportedVerifiers, e)
  {
    hide FirstFault, ControlsError, VerifiedSnapshot;
    assert s.controls[0..] == s.controls && s.controls[..0] == [];
    FaultAfter(s.controls, 0, s.supportedVerifiers, map[], e);
  }

  // ---- Selection -----------------------------------------------------------

  predicate Effective(c: Control, observedAt: int) {
    && c.status == Published
    && (c.effectiveFrom.None? || c.effectiveFrom.value <= observedAt)
    && (c.effectiveUntil.None? || observedAt < c.effectiveUntil.value)
  }

  predicate CoreMatch(c: Control, intent: ActionIntent) {
    && c.ns == intent.ns
    && intent.actor.kind in c.match_.actorTypes
    && intent.action.actionType in c.match_.actionTypes
    && intent.action.domainAction in c.match_.domainActions
    && intent.resource.resourceType in c.match_.resourceTypes
  }

  function PredicateResults(ps: seq<Predicate>, document: Json): Result<seq<PredicateResult>, PointerError> {
    if ps == [] then Ok([])
    else
      match EvaluatePredicate(ps[0], document)
      case Err(e) => Err(e)
      case Ok(first) =>
        match PredicateResults(ps[1..], document)
        case Err(e) => Err(e)
        case Ok(rest) => Ok([first] + rest)
  }

  /** A control's reference; the digest is present on every control of a valid snapshot. */
  function ReferenceOf(c: Control): ControlRef {
    ControlRef(c.ns, c.controlId, c.version, match c.digest case Some(d) => d case None => OfControl(c))
  }

  /** The reference is this control's: its namespace, identifier, version and digest. */
  predicate Refers(ref: ControlRef, c: Control) {
    && ref.ns == c.ns && ref.controlId == c.controlId && ref.version == c.version
    && (if c.digest.Some? then ref.digest == c.digest.value else ref.digest == OfControl(c))
  }

  lemma RefersIff(ref: ControlRef, c: Control)
    ensures ReferenceOf(c) == ref <==> Refers(ref, c)
  {
  }

  function ApplyControl(c: Control, results: seq<PredicateResult>): Applied {
    var unknown := Unknown in results;
    Applied(c, ReferenceOf(c), if unknown then Failed(c.onUnknown) else Normal(c.effect), results, unknown)
  }

  /** One control's contribution: nothing when it is not in force, does not match, or a predicate is false. */
  function Contribution(c: Control, intent: ActionIntent, observedAt: int): Result<seq<Applied>, EvaluationError> {
    if !Effective(c, observedAt) || !CoreMatch(c, intent) then Ok([])
    else
      match PredicateResults(c.match_.predicates, Document(intent))
      case Err(e) => Err(PointerInvalid(e))
      case Ok(results) => Ok(if No in results then [] else [ApplyControl(c, results)])
  }

  function SelectFrom(controls: seq<Control>, intent: ActionIntent, observedAt: int)
    : Result<seq<Applied>, EvaluationError>
  {
    if controls == [] then Ok([])
    else
      match Contribution(controls[0], intent, observedAt)
      case Err(e) => Err(e)
      case Ok(first) =>
        match SelectFrom(controls[1..], intent, observedAt)
        case Err(e) => Err(e)
        case Ok(rest) => Ok(first + rest)
  }

  function OutcomeKey(canon: Canon): Applied -> string {
    (a: Applied) => canon.outcome(a.ref)
  }

  function SelectControls(intent: ActionIntent, s: Snapshot, canon: Canon): Result<seq<Applied>, EvaluationError> {
    match SnapshotError(s)
    case Some(e) => Err(e)
    case None =>
      match SelectFrom(s.controls, intent, s.observedAt)
      case Err(e) => Err(e)
      case Ok(selected) => Ok(SortBy(selected, OutcomeKey(canon)))
  }

  lemma {:induction false} SelectFromAppend(controls: seq<Control>, c: Control, intent: ActionIntent, observedAt: int)
    requires SelectFrom(controls, intent, observedAt).Ok? && Contribution(c, intent, observedAt).Ok?
    ensures SelectFrom(controls + [c], intent, observedAt)
            == Ok(SelectFrom(controls, intent, observedAt).value + Contribution(c, intent, observedAt).value)
  {
    hide Contribution;
    var more := Contribution(c, intent, observedAt).value;
    if controls == [] {
      assert [c][1..] == [] && more + [] == more && [] + more == more;
    } else {
      SelectFromAppend(controls[1..], c, intent, observedAt);
      assert (controls + [c])[1..] == controls[1..] + [c];
      var first, rest := Contribution(controls[0], intent, observedAt).value,
                         SelectFrom(controls[1..], intent, observedAt).value;
      assert first + (rest + more) == (first + rest) + more;
    }
  }

  lemma {:induction false} SelectFromError(controls: seq<Control>, k: nat, intent: ActionIntent, observedAt: int)
    requires k < |controls|
    requires SelectFrom(controls[..k], intent, observedAt).Ok? && Contribution(controls[k], intent, observedAt).Err?
    ensures SelectFrom(controls, intent, observedAt) == Err(Contribution(controls[k], intent, observedAt).error)
  {
    if k > 0 {
      assert controls[..k][1..] == controls[1..][..k - 1];
      SelectFromError(controls[1..], k - 1, intent, observedAt);
    }
  }

  method SelectByLoop(intent: ActionIntent, s: Snapshot, canon: Canon)
    returns (r: Result<seq<Applied>, EvaluationError>)
    ensures r == SelectControls(intent, s, canon)
  {
    hide SnapshotError, Effective, CoreMatch, ApplyControl, PredicateResults, Document, SortBy, OutcomeKey;
    var error := ValidateSnapshot(s);
    if error.Some? {
      return Err(error.value);
    }
    var selected: seq<Applied> := [];
    for i := 0 to |s.controls|
      invariant SelectFrom(s.controls[..i], intent, s.observedAt) == Ok(selected)
    {
      var control := s.controls[i];
      assert s.controls[..i + 1] == s.controls[..i] + [control];
      assert selected + [] == selected;
      if !Effective(control, s.observedAt) || !CoreMatch(control, intent) {
        SelectFromAppend(s.controls[..i], control, intent, s.observedAt);
        continue;
      }
      var results := PredicateResults(control.match_.predicates, Document(intent));
      if results.Err? {
        SelectFromError(s.controls, i, intent, s.observedAt);
        return Err(PointerInvalid(results.error));
      }
      SelectFromAppend(s.controls[..i], control, intent, s.observedAt);
      if No in results.value {
        continue;
      }
      selected := selected + [ApplyControl(control, results.value)];
    }
    assert s.controls[..|s.controls|] == s.controls;
    r := Ok(SortBy(selected, OutcomeKey(canon)));
  }

  /** In force at this time and about this kind of action. */
  predicate Concerns(c: Control, intent: ActionIntent, observedAt: int) {
    && c.status == Published
    && (c.effectiveFrom.Some? ==> c.effectiveFrom.value <= observedAt)
    && (c.effectiveUntil.Some? ==> observedAt < c.effectiveUntil.value)
    && c.ns == intent.ns
    && intent.actor.kind in c.match_.actorTypes && intent.action.actionType in c.match_.actionTypes
    && intent.action.domainAction in c.match_.domainActions
    && intent.resource.resourceType in c.match_.resourceTypes
  }

  /** The control concerns the intent, and each of its predicates can be judged and is not refuted. */
  predicate Selected(c: Control, intent: ActionIntent, observedAt: int) {
    && Concerns(c, intent, observedAt)
    && forall p :: p in c.match_.predicates ==> Confirmed(p, Document(intent)) || Undecided(p, Document(intent))
  }

  /** The control's effect applies: every predicate is confirmed. Otherwise its unknown failure does. */
  predicate Settled(c: Control, intent: ActionIntent) {
    forall p :: p in c.match_.predicates ==> Confirmed(p, Document(intent))
  }

  lemma {:induction false} ResultsIff(ps: seq<Predicate>, document: Json)
    ensures PredicateResults(ps, document).Ok? <==> forall p :: p in ps ==> Resolve(document, p.path).Ok?
    ensures PredicateResults(ps, document).Ok?
            ==> (No !in PredicateResults(ps, document).value <==> forall p :: p in ps ==> !Refuted(p, document))
    ensures PredicateResults(ps, document).Ok?
            ==> (Unknown !in PredicateResults(ps, document).value <==> forall p :: p in ps ==> !Undecided(p, document))
  {
    hide EvaluatePredicate, Confirmed, Undecided, Refuted, Resolve;
    if ps != [] {
      ResultsIff(ps[1..], document);
      JudgedIff(ps[0], document);
      assert ps == [ps[0]] + ps[1..];
    }
  }

  lemma JudgedOnce(p: Predicate, document: Json)
    ensures Refuted(p, document) ==> !Confirmed(p, document) && !Undecided(p, document)
    ensures !Refuted(p, document) && Resolve(document, p.path).Ok? ==> Confirmed(p, document) || Undecided(p, document)
    ensures Confirmed(p, document) || Undecided(p, document) ==> Resolve(document, p.path).Ok?
    ensures !(Confirmed(p, document) && Undecided(p, document))
  {
    hide Resolve;
  }

  /** The source's tests, as one. */
  lemma SelectedIff(c: Control, intent: ActionIntent, observedAt: int)
    ensures Concerns(c, intent, observedAt) <==> Effective(c, observedAt) && CoreMatch(c, intent)
    ensures var results := PredicateResults(c.match_.predicates, Document(intent));
            && (Selected(c, intent, observedAt)
                <==> Concerns(c, intent, observedAt) && results.Ok? && No !in results.value)
            && (Selected(c, intent, observedAt)
                ==> results.Ok? && (Unknown !in results.value <==> Settled(c, intent)))
  {
    hide Confirmed, Undecided, Refuted, Resolve, Document, PredicateResults;
    ResultsIff(c.match_.predicates, Document(intent));
    forall p | p in c.match_.predicates
      ensures Refuted(p, Document(intent)) ==> !Confirmed(p, Document(intent)) && !Undecided(p, Document(intent))
      ensures !Refuted(p, Document(intent)) && Resolve(Document(intent), p.path).Ok?
              ==> Confirmed(p, Document(intent)) || Undecided(p, Document(intent))
      ensures Confirmed(p, Document(intent)) || Undecided(p, Document(intent))
              ==> Resolve(Document(intent), p.path).Ok?
      ensures !(Confirmed(p, Document(intent)) && Undecided(p, Document(intent)))
    {
      JudgedOnce(p, Document(intent));
    }
  }

  function ResultsOf(c: Control, intent: ActionIntent): seq<PredicateResult> {
    match PredicateResults(c.match_.predicates, Document(intent))
    case Ok(results) => results
    case Err(_) => []
  }

  /** What a selected control contributes: its effect, or its unknown failure. */
  function Contributed(c: Control, intent: ActionIntent): Applied {
    var settled := Settled(c, intent);
    Applied(c, ReferenceOf(c), if settled then Normal(c.effect) else Failed(c.onUnknown), ResultsOf(c, intent),
            !settled)
  }

  lemma ContributionOf(c: Control, intent: ActionIntent, observedAt: int)
    requires Contribution(c, intent, observedAt).Ok?
    ensures Contribution(c, intent, observedAt).value
            == if Selected(c, intent, observedAt) then [Contributed(c, intent)] else []
  {
    hide PredicateResults, Document, Effective, CoreMatch, Concerns, Selected, Settled, ReferenceOf;
    SelectedIff(c, intent, observedAt);
  }

  lemma {:induction false} SelectFromMembers(controls: seq<Control>, intent: ActionIntent, observedAt: int)
    requires SelectFrom(controls, intent, observedAt).Ok?
    ensures var selected := SelectFrom(controls, intent, observedAt).value;
            forall a :: a in selected
                        <==> && a.control in controls && Selected(a.control, intent, observedAt)
                             && a == Contributed(a.control, intent)
  {
    hide Contribution, Selected, Settled, ResultsOf, ReferenceOf;
    if controls != [] {
      SelectFromMembers(controls[1..], intent, observedAt);
      ContributionOf(controls[0], intent, observedAt);
      assert controls == [controls[0]] + controls[1..];
    }
  }

  /** Selection returns exactly what the selected controls contribute. */
  lemma SelectedExactly(intent: ActionIntent, s: Snapshot, canon: Canon)
    requires SelectControls(intent, s, canon).Ok?
    ensures var selected := SelectControls(intent, s, canon).value;
            forall a :: a in selected
                        <==> && a.control in s.controls && Selected(a.control, intent, s.observedAt)
                             && a == Contributed(a.control, intent)
    ensures forall a :: a in SelectControls(intent, s, canon).value ==> Refers(a.ref, a.control)
  {
    hide SelectFrom, Selected, Settled, ResultsOf, ReferenceOf, Refers;
    var found := SelectFrom(s.controls, intent, s.observedAt).value;
    SelectFromMembers(s.controls, intent, s.observedAt);
    SortByMembers(found, OutcomeKey(canon));
    forall c: Control
      ensures Refers(Contributed(c, intent).ref, c)
    {
      RefersIff(ReferenceOf(c), c);
    }
  }
}
