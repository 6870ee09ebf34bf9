/** Policy versions and the hash-linked chain of their lifecycle events. */
module Lifecycle {
  import opened Wrappers

  // ---- Versions and events -------------------------------------------------

  datatype Stage = Draft | Reviewed | Approved | Published | Retired

  const STAGES := [Draft, Reviewed, Approved, Published, Retired]

  datatype SpecRef = SpecRef(tenant: nat, specId: nat, moduleKey: string, version: nat, contentHash: string,
                             semanticHash: string)

  datatype ObjectRef = ObjectRef(tenant: nat, objectId: nat, hash: string)

  datatype LifecycleEvent = LifecycleEvent(tenant: nat, eventId: nat, specRef: SpecRef, priorStage: Option<Stage>,
                                           priorEvent: Option<ObjectRef>, next: Stage, eventAt: int,
                                           effectiveAt: Option<int>, contentHash: string,
                                           acceptedDecisions: set<ObjectRef>, sequence: int, hash: string)

  datatype Coverage = Coverage(action: string, verb: string, resourceType: string, principalType: string)

  /** A policy version; a correction also lists the environments it is for. */
  datatype Spec = Spec(tenant: nat, specId: nat, moduleKey: string, version: nat, coverage: Coverage,
                       policyNamespace: Option<string>, dependencies: seq<SpecRef>, overlays: seq<SpecRef>,
                       environments: Option<set<string>>,
                       effectiveFrom: Option<int>, effectiveUntil: Option<int>, contentHash: string,
                       semanticHash: string)

  /** The three hash functions, each over an object without its own hash field, the semantic one over a version without
      either hash. Nothing is assumed of them. */
  datatype Hashes = Hashes(event: LifecycleEvent -> string, content: Spec -> string, semantic: Spec -> string)

  datatype Rejection = PolicyHashInvalid(specId: nat) | LifecycleHashInvalid(specId: nat)

  function Reference(s: Spec): SpecRef {
    SpecRef(s.tenant, s.specId, s.moduleKey, s.version, s.contentHash, s.semanticHash)
  }

  function EventReference(e: LifecycleEvent): ObjectRef { ObjectRef(e.tenant, e.eventId, e.hash) }

  // ---- The chain of one version --------------------------------------------

  function Relevant(events: seq<LifecycleEvent>, specId: nat): seq<LifecycleEvent> {
    if events == [] then []
    else (if events[0].specRef.specId == specId then [events[0]] else []) + Relevant(events[1..], specId)
  }

  function InsertEvent(e: LifecycleEvent, s: seq<LifecycleEvent>): seq<LifecycleEvent> {
    if s == [] || e.sequence <= s[0].sequence then [e] + s else [s[0]] + InsertEvent(e, s[1..])
  }

  /** Stable sort by sequence number. */
  function BySequence(s: seq<LifecycleEvent>): seq<LifecycleEvent> {
    if s == [] then [] else InsertEvent(s[0], BySequence(s[1..]))
  }

  function Chain(events: seq<LifecycleEvent>, specId: nat): seq<LifecycleEvent> {
    BySequence(Relevant(events, specId))
  }

  function Prior(chain: seq<LifecycleEvent>, i: nat): Option<LifecycleEvent>
    requires i <= |chain|
  {
    if i == 0 then None else Some(chain[i - 1])
  }

  /** The event belongs to exactly this version, carries its own hash, and continues `prior`. */
  predicate Follows(h: Hashes, spec: Spec, e: LifecycleEvent, prior: Option<LifecycleEvent>) {
    && e.specRef == Reference(spec)
    && e.contentHash == spec.contentHash
    && h.event(e.(hash := "")) == e.hash
    && e.sequence == (if prior.None? then 1 else prior.value.sequence + 1)
    && e.priorEvent == (if prior.None? then None else Some(EventReference(prior.value)))
    && e.priorStage == (if prior.None? then None else Some(prior.value.next))
  }

  predicate Linked(h: Hashes, spec: Spec, chain: seq<LifecycleEvent>) {
    forall i :: 0 <= i < |chain| ==> Follows(h, spec, chain[i], Prior(chain, i))
  }

  function AppliesAt(e: LifecycleEvent): int {
    if e.effectiveAt.Some? then e.effectiveAt.value else e.eventAt
  }

  /** The events that have taken effect by `now`, in chain order. */
  function InEffect(chain: seq<LifecycleEvent>, now: int): seq<LifecycleEvent> {
    if chain == [] then []
    else
      var n := |chain| - 1;
      InEffect(chain[..n], now) + (if AppliesAt(chain[n]) <= now then [chain[n]] else [])
  }

  function StageOf(applied: seq<LifecycleEvent>): Option<Stage> {
    if applied == [] then None else Some(applied[|applied| - 1].next)
  }

  datatype Standing = Standing(stage: Option<Stage>, applied: seq<LifecycleEvent>)

  /** A linked chain gives the stage of its last event in effect; any other chain is rejected. */
  function StateAt(h: Hashes, spec: Spec, events: seq<LifecycleEvent>, now: int): Result<Standing, Rejection> {
    var chain := Chain(events, spec.specId);
    if Linked(h, spec, chain) then Ok(Standing(StageOf(InEffect(chain, now)), InEffect(chain, now)))
    else Err(LifecycleHashInvalid(spec.specId))
  }

  lemma InEffectNext(chain: seq<LifecycleEvent>, n: nat, now: int)
    requires n < |chain|
    ensures InEffect(chain[..n + 1], now)
            == InEffect(chain[..n], now) + (if AppliesAt(chain[n]) <= now then [chain[n]] else [])
  {
    assert chain[..n + 1][..n] == chain[..n];
  }

  method CheckState(h: Hashes, spec: Spec, events: seq<LifecycleEvent>, now: int)
    returns (r: Result<Standing, Rejection>)
    ensures r == StateAt(h, spec, events, now)
  {
    assert InEffect([], now) == [];
    hide Follows, InEffect, Chain, AppliesAt;
    var relevant := Chain(events, spec.specId);
    var prior: Option<LifecycleEvent> := None;
    var stage: Option<Stage> := None;
    var applied: seq<LifecycleEvent> := [];
    for i := 0 to |relevant|
      invariant prior == Prior(relevant, i)
      invariant applied == InEffect(relevant[..i], now) && stage == StageOf(applied)
      invariant forall j :: 0 <= j < i ==> Follows(h, spec, relevant[j], Prior(relevant, j))
    {
      var e := relevant[i];
      if !Follows(h, spec, e, prior) {
        return Err(LifecycleHashInvalid(spec.specId));
      }
      InEffectNext(relevant, i, now);
      prior := Some(e);
      if AppliesAt(e) <= now {
        stage := Some(e.next);
        applied := applied + [e];
      }
    }
    assert relevant[..|relevant|] == relevant;
    r := Ok(Standing(stage, applied));
  }

  /** Whether the events alone, unchecked, put the version in force; of a version that passes its checks they say the
      truth. */
  method ClaimsEffectivePublished(events: seq<LifecycleEvent>, specId: nat, now: int) returns (claims: bool)
    ensures claims <==> StageOf(InEffect(Chain(events, specId), now)) == Some(Published)
    ensures forall h: Hashes, spec: Spec :: spec.specId == specId && StateAt(h, spec, events, now).Ok?
              ==> (claims <==> StateAt(h, spec, events, now).value.stage == Some(Published))
  {
    var relevant := Chain(events, specId);
    var stage: Option<Stage> := None;
    for i := 0 to |relevant|
      invariant stage == StageOf(InEffect(relevant[..i], now))
    {
      InEffectNext(relevant, i, now);
      if AppliesAt(relevant[i]) <= now {
        stage := Some(relevant[i].next);
      }
    }
    assert relevant[..|relevant|] == relevant;
    claims := stage == Some(Published);
  }

  // ---- The chain a projection accepts --------------------------------------

  datatype ProjectedStatus = DraftStatus | PublishedStatus | RetiredStatus

  function Predecessor(stage: Stage): Option<Stage> {
    match stage
    case Draft => None
    case Reviewed => Some(Draft)
    case Approved => Some(Reviewed)
    case Published => Some(Approved)
    case Retired => Some(Published)
  }

  predicate Advances(e: LifecycleEvent, prior: Option<LifecycleEvent>) {
    Predecessor(e.next) == if prior.None? then None else Some(prior.value.next)
  }

  function ExpectedStage(status: ProjectedStatus): Stage {
    match status
    case DraftStatus => Draft
    case PublishedStatus => Published
    case RetiredStatus => Retired
  }

  /** The chain is the first stages, in order, numbered from one. */
  predicate StagePrefix(chain: seq<LifecycleEvent>) {
    |chain| <= |STAGES| && forall i :: 0 <= i < |chain| ==> chain[i].next == STAGES[i] && chain[i].sequence == i + 1
  }

  predicate LengthFits(n: nat, status: ProjectedStatus) {
    match status
    case DraftStatus => n <= 1
    case PublishedStatus => n == 4
    case RetiredStatus => n == 5
  }

  /** The accepted chain, or nothing. It is accepted exactly when it is linked and is a prefix of
      Draft, Reviewed, Approved, Published, Retired: of length at most 1 for a draft, 4 for a published version, 5 for
      a retired one. */
  method ValidateLifecycle(h: Hashes, spec: Spec, status: ProjectedStatus, events: seq<LifecycleEvent>)
    returns (ordered: Option<seq<LifecycleEvent>>)
    ensures var chain := Chain(events, spec.specId);
            ordered == if Linked(h, spec, chain) && StagePrefix(chain) && LengthFits(|chain|, status)
                       then Some(chain) else None
  {
    var relevant := Relevant(events, spec.specId);
    SortKeepsLength(relevant);
    if relevant == [] {
      return if status == DraftStatus then Some([]) else None;
    }
    var chain := BySequence(relevant);
    var prior: Option<LifecycleEvent> := None;
    for i := 0 to |chain|
      invariant prior == Prior(chain, i)
      invariant forall j :: 0 <= j < i ==>
        Follows(h, spec, chain[j], Prior(chain, j)) && Advances(chain[j], Prior(chain, j))
    {
      if !(Follows(h, spec, chain[i], prior) && Advances(chain[i], prior)) {
        BrokenChain(h, spec, chain, i);
        return None;
      }
      prior := Some(chain[i]);
    }
    AdvancingChain(h, spec, chain);
    var current := chain[|chain| - 1];
    if current.next != ExpectedStage(status) {
      return None;
    }
    ordered := Some(chain);
  }

  lemma PrefixAdvances(chain: seq<LifecycleEvent>, i: nat)
    requires StagePrefix(chain) && i < |chain|
    ensures Advances(chain[i], Prior(chain, i))
  {
    assert i > 0 ==> chain[i - 1].next == STAGES[i - 1];
    assert chain[i].next == STAGES[i];
  }

  lemma BrokenChain(h: Hashes, spec: Spec, chain: seq<LifecycleEvent>, i: nat)
    requires i < |chain| && !(Follows(h, spec, chain[i], Prior(chain, i)) && Advances(chain[i], Prior(chain, i)))
    ensures !(Linked(h, spec, chain) && StagePrefix(chain))
  {
    hide Follows, Advances;
    if StagePrefix(chain) {
      PrefixAdvances(chain, i);
    }
  }

  lemma {:induction false} StageAt(h: Hashes, spec: Spec, chain: seq<LifecycleEvent>, i: nat)
    requires i < |chain| && forall j :: 0 <= j < |chain| ==> Advances(chain[j], Prior(chain, j))
    ensures i < |STAGES| && chain[i].next == STAGES[i]
  {
    assert Advances(chain[i], Prior(chain, i));
    if i > 0 {
      StageAt(h, spec, chain, i - 1);
    }
  }

  /** A linked chain in which every stage follows its predecessor is a prefix of the stages. */
  lemma AdvancingChain(h: Hashes, spec: Spec, chain: seq<LifecycleEvent>)
    requires forall j :: 0 <= j < |chain| ==>
               Follows(h, spec, chain[j], Prior(chain, j)) && Advances(chain[j], Prior(chain, j))
    ensures StagePrefix(chain)
  {
    hide Follows, Advances, Prior;
    forall i | 0 <= i < |chain|
      ensures i < |STAGES| && chain[i].next == STAGES[i] && chain[i].sequence == i + 1
    {
      StageAt(h, spec, chain, i);
      Numbered(h, spec, chain, i);
    }
    if |chain| > |STAGES| {
      StageAt(h, spec, chain, |STAGES|);
    }
  }

  lemma {:induction false} InsertKeepsLength(e: LifecycleEvent, s: seq<LifecycleEvent>)
    ensures |InsertEvent(e, s)| == |s| + 1
  {
    if s != [] && e.sequence > s[0].sequence {
      InsertKeepsLength(e, s[1..]);
    }
  }

  lemma {:induction false} SortKeepsLength(s: seq<LifecycleEvent>)
    ensures |BySequence(s)| == |s|
  {
    if s != [] {
      SortKeepsLength(s[1..]);
      InsertKeepsLength(s[0], BySequence(s[1..]));
    }
  }

  // ---- What the two readings share -----------------------------------------

  predicate Accepted(h: Hashes, spec: Spec, status: ProjectedStatus, events: seq<LifecycleEvent>) {
    var chain := Chain(events, spec.specId);
    Linked(h, spec, chain) && StagePrefix(chain) && LengthFits(|chain|, status)
  }

  /** The state reading never rejects a chain the projection accepts, and once all its events are in effect it gives
      exactly the projected status (no stage at all for a draft without events). */
  lemma AcceptedChainIsReadable(h: Hashes, spec: Spec, status: ProjectedStatus, events: seq<LifecycleEvent>, now: int)
    requires Accepted(h, spec, status, events)
    ensures var r := StateAt(h, spec, events, now);
            && r.Ok?
            && ((forall e :: e in Chain(events, spec.specId) ==> AppliesAt(e) <= now)
                ==> && r.value.applied == Chain(events, spec.specId)
                    && r.value.stage == (if r.value.applied == [] then None else Some(ExpectedStage(status))))
  {
    var chain := Chain(events, spec.specId);
    if forall e :: e in chain ==> AppliesAt(e) <= now {
      AllInEffect(chain, now);
      if chain != [] {
        assert chain[|chain| - 1].next == STAGES[|chain| - 1];
      }
    }
  }

  lemma {:induction false} AllInEffect(chain: seq<LifecycleEvent>, now: int)
    requires forall e :: e in chain ==> AppliesAt(e) <= now
    ensures InEffect(chain, now) == chain
  {
    if chain != [] {
      var n := |chain| - 1;
      AllInEffect(chain[..n], now);
      assert chain == chain[..n] + [chain[n]];
    }
  }

  predicate EffectiveInOrder(chain: seq<LifecycleEvent>) {
    forall i, j :: 0 <= i < j < |chain| ==> AppliesAt(chain[i]) <= AppliesAt(chain[j])
  }

  lemma {:induction false} InEffectMembers(chain: seq<LifecycleEvent>, now: int)
    ensures forall e :: e in InEffect(chain, now) <==> e in chain && AppliesAt(e) <= now
  {
    if chain != [] {
      var n := |chain| - 1;
      InEffectMembers(chain[..n], now);
      assert chain == chain[..n] + [chain[n]];
    }
  }

  /** The events in effect are a prefix of the chain at every time exactly when their times never go back. */
  lemma PrefixIffInOrder(h: Hashes, spec: Spec, chain: seq<LifecycleEvent>)
    requires Linked(h, spec, chain)
    ensures (forall now :: InEffect(chain, now) <= chain) <==> EffectiveInOrder(chain)
  {
    if EffectiveInOrder(chain) {
      forall now: int
        ensures InEffect(chain, now) <= chain
      {
        InOrderPrefix(chain, now);
      }
    } else {
      var i, j :| 0 <= i < j < |chain| && AppliesAt(chain[i]) > AppliesAt(chain[j]);
      LaterWithoutEarlier(h, spec, chain, i, j);
    }
  }

  lemma {:induction false} InOrderPrefix(chain: seq<LifecycleEvent>, now: int)
    requires EffectiveInOrder(chain)
    ensures InEffect(chain, now) <= chain
    ensures chain != [] && AppliesAt(chain[|chain| - 1]) <= now ==> InEffect(chain, now) == chain
  {
    if chain != [] {
      var n := |chain| - 1;
      InOrderPrefix(chain[..n], now);
      assert chain == chain[..n] + [chain[n]];
      if AppliesAt(chain[n]) <= now {
        AllInEffect(chain, now);
      }
    }
  }

  lemma LinkAt(h: Hashes, spec: Spec, chain: seq<LifecycleEvent>, i: nat)
    requires Linked(h, spec, chain) && i < |chain|
    ensures Follows(h, spec, chain[i], Prior(chain, i))
  {
    hide Follows, Prior;
  }

  lemma {:induction false} Numbered(h: Hashes, spec: Spec, chain: seq<LifecycleEvent>, i: nat)
    requires Linked(h, spec, chain) && i < |chain|
    ensures chain[i].sequence == i + 1
  {
    hide Linked;
    LinkAt(h, spec, chain, i);
    if i > 0 {
      Numbered(h, spec, chain, i - 1);
    }
  }

  lemma LaterWithoutEarlier(h: Hashes, spec: Spec, chain: seq<LifecycleEvent>, i: nat, j: nat)
    requires Linked(h, spec, chain) && i < j < |chain| && AppliesAt(chain[i]) > AppliesAt(chain[j])
    ensures !(InEffect(chain, AppliesAt(chain[j])) <= chain)
  {
    hide Linked, InEffect;
    var applied := InEffect(chain, AppliesAt(chain[j]));
    InEffectMembers(chain, AppliesAt(chain[j]));
    if i < |applied| {
      assert applied[i] in applied;
      assert applied[i] != chain[i];
    } else {
      assert chain[j] in applied;
      var k :| 0 <= k < |applied| && applied[k] == chain[j];
      Numbered(h, spec, chain, k);
      Numbered(h, spec, chain, j);
      assert chain[k] != chain[j];
    }
  }

  // ---- Order of the input --------------------------------------------------

  predicate InSequence(s: seq<LifecycleEvent>) {
    forall i, j :: 0 <= i < j < |s| ==> s[i].sequence <= s[j].sequence
  }

  lemma {:induction false} InsertSame(e: LifecycleEvent, s: seq<LifecycleEvent>)
    ensures multiset(InsertEvent(e, s)) == multiset(s) + multiset{e}
  {
    if s != [] && e.sequence > s[0].sequence {
      InsertSame(e, s[1..]);
      assert s == [s[0]] + s[1..];
    }
  }

  lemma InsertMembers(e: LifecycleEvent, s: seq<LifecycleEvent>, k: nat)
    requires k < |InsertEvent(e, s)|
    ensures InsertEvent(e, s)[k] == e || InsertEvent(e, s)[k] in s
  {
    hide InsertEvent;
    InsertSame(e, s);
    assert InsertEvent(e, s)[k] in multiset(InsertEvent(e, s));
  }

  lemma {:induction false} InsertInSequence(e: LifecycleEvent, s: seq<LifecycleEvent>)
    requires InSequence(s)
    ensures InSequence(InsertEvent(e, s))
  {
    if s != [] && e.sequence > s[0].sequence {
      InsertInSequence(e, s[1..]);
      var rest := InsertEvent(e, s[1..]);
      forall k | 0 <= k < |rest|
        ensures s[0].sequence <= rest[k].sequence
      {
        InsertMembers(e, s[1..], k);
      }
    }
  }

  /** The sort is a sort. */
  lemma {:induction false} SortInSequence(s: seq<LifecycleEvent>)
    ensures InSequence(BySequence(s)) && multiset(BySequence(s)) == multiset(s)
  {
    if s != [] {
      SortInSequence(s[1..]);
      InsertInSequence(s[0], BySequence(s[1..]));
      InsertSame(s[0], BySequence(s[1..]));
      assert s == [s[0]] + s[1..];
    }
  }

  lemma {:induction false} RelevantSame(a: seq<LifecycleEvent>, specId: nat, e: LifecycleEvent)
    ensures multiset(Relevant(a, specId))[e] == if e.specRef.specId == specId then multiset(a)[e] else 0
  {
    if a != [] {
      RelevantSame(a[1..], specId, e);
      assert a == [a[0]] + a[1..];
    }
  }

  predicate DistinctNumbers(s: seq<LifecycleEvent>) {
    forall i, j :: 0 <= i < j < |s| ==> s[i].sequence != s[j].sequence
  }

  lemma SameFirst(a: seq<LifecycleEvent>, b: seq<LifecycleEvent>)
    requires multiset(a) == multiset(b) && InSequence(a) && InSequence(b) && DistinctNumbers(a) && a != [] && b != []
    ensures a[0] == b[0]
  {
    assert a[0] in multiset(b) && b[0] in multiset(a);
    var j :| 0 <= j < |a| && a[j] == b[0];
    var k :| 0 <= k < |b| && b[k] == a[0];
    assert a[0].sequence <= a[j].sequence && b[0].sequence <= b[k].sequence;
  }

  lemma TailBag(a: seq<LifecycleEvent>)
    requires a != []
    ensures multiset(a[1..]) == multiset(a) - multiset{a[0]}
  {
    assert a == [a[0]] + a[1..];
  }

  lemma {:induction false} SortedSame(a: seq<LifecycleEvent>, b: seq<LifecycleEvent>)
    requires multiset(a) == multiset(b) && InSequence(a) && InSequence(b) && DistinctNumbers(a)
    ensures a == b
    decreases |a|
  {
    assert |a| == |multiset(a)| == |multiset(b)| == |b|;
    if a != [] {
      SameFirst(a, b);
      TailBag(a);
      TailBag(b);
      TailInSequence(a);
      TailInSequence(b);
      hide InSequence, DistinctNumbers;
      SortedSame(a[1..], b[1..]);
      assert a == [a[0]] + a[1..] && b == [b[0]] + b[1..];
    }
  }

  lemma TailInSequence(a: seq<LifecycleEvent>)
    requires a != [] && InSequence(a)
    ensures InSequence(a[1..]) && (DistinctNumbers(a) ==> DistinctNumbers(a[1..]))
  {
  }

  /** The state reading does not depend on the order in which events are stored. */
  lemma StateIgnoresOrder(h: Hashes, spec: Spec, events: seq<LifecycleEvent>, events': seq<LifecycleEvent>, now: int)
    requires multiset(events) == multiset(events')
    ensures StateAt(h, spec, events, now) == StateAt(h, spec, events', now)
  {
    if Linked(h, spec, Chain(events, spec.specId)) {
      LinkedIgnoresOrder(h, spec, events, events');
    } else if Linked(h, spec, Chain(events', spec.specId)) {
      LinkedIgnoresOrder(h, spec, events', events);
    }
  }

  lemma LinkedIgnoresOrder(h: Hashes, spec: Spec, events: seq<LifecycleEvent>, events': seq<LifecycleEvent>)
    requires multiset(events) == multiset(events') && Linked(h, spec, Chain(events, spec.specId))
    ensures Chain(events', spec.specId) == Chain(events, spec.specId)
  {
    var a, b := Chain(events, spec.specId), Chain(events', spec.specId);
    SortInSequence(Relevant(events, spec.specId));
    SortInSequence(Relevant(events', spec.specId));
    forall e: LifecycleEvent
      ensures multiset(a)[e] == multiset(b)[e]
    {
      RelevantSame(events, spec.specId, e);
      RelevantSame(events', spec.specId, e);
    }
    forall i, j | 0 <= i < j < |a|
      ensures a[i].sequence != a[j].sequence
    {
      hide Linked;
      Numbered(h, spec, a, i);
      Numbered(h, spec, a, j);
    }
    SortedSame(a, b);
  }
}
