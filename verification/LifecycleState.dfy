/** What the state of a policy version is, said of the stored events without sorting them. */
module LifecycleState {
  import opened Wrappers
  import opened Lifecycle

  /** The event names the version by its identifier. */
  predicate About(spec: Spec, e: LifecycleEvent) { e.specRef.specId == spec.specId }

  /** The event is of exactly this version and carries its own hash. */
  predicate Belongs(h: Hashes, spec: Spec, e: LifecycleEvent) {
    && e.specRef.tenant == spec.tenant && e.specRef.specId == spec.specId && e.specRef.moduleKey == spec.moduleKey
    && e.specRef.version == spec.version && e.specRef.contentHash == spec.contentHash
    && e.specRef.semanticHash == spec.semanticHash
    && e.contentHash == spec.contentHash && e.hash == h.event(e.(hash := ""))
  }

  /** `e` is the next event after `p`: one number on, naming `p` and the stage that `p` led to. */
  predicate Continues(e: LifecycleEvent, p: LifecycleEvent) {
    && e.sequence == p.sequence + 1
    && e.priorEvent.Some? && e.priorEvent.value.tenant == p.tenant && e.priorEvent.value.objectId == p.eventId
    && e.priorEvent.value.hash == p.hash
    && e.priorStage == Some(p.next)
  }

  predicate Begins(e: LifecycleEvent) { e.sequence == 1 && e.priorEvent.None? && e.priorStage.None? }

  predicate TwoOfOneNumber(spec: Spec, events: seq<LifecycleEvent>) {
    exists j, k :: 0 <= j < k < |events| && About(spec, events[j]) && About(spec, events[k])
                   && events[j].sequence == events[k].sequence
  }

  /** The stored events about the version are one chain: each belongs to it and begins it or continues another, and no
      number occurs twice. */
  predicate OneChain(h: Hashes, spec: Spec, events: seq<LifecycleEvent>) {
    && (forall e :: e in events && About(spec, e) ==>
          && Belongs(h, spec, e) && 1 <= e.sequence
          && (Begins(e) || exists p :: p in events && About(spec, p) && Continues(e, p)))
    && !TwoOfOneNumber(spec, events)
  }

  lemma FollowsIff(h: Hashes, spec: Spec, e: LifecycleEvent, prior: Option<LifecycleEvent>)
    ensures Follows(h, spec, e, prior)
            <==> Belongs(h, spec, e) && if prior.None? then Begins(e) else Continues(e, prior.value)
  {
  }

  lemma ChainBag(events: seq<LifecycleEvent>, specId: nat)
    ensures InSequence(Chain(events, specId))
    ensures forall e :: multiset(Chain(events, specId))[e]
                        == if e.specRef.specId == specId then multiset(events)[e] else 0
  {
    hide InSequence;
    SortInSequence(Relevant(events, specId));
    forall e: LifecycleEvent
      ensures multiset(Chain(events, specId))[e] == if e.specRef.specId == specId then multiset(events)[e] else 0
    {
      RelevantSame(events, specId, e);
    }
  }

  lemma ChainMembers(spec: Spec, events: seq<LifecycleEvent>)
    ensures forall e :: e in Chain(events, spec.specId) <==> e in events && About(spec, e)
  {
    hide Chain;
    var chain := Chain(events, spec.specId);
    ChainBag(events, spec.specId);
    forall e: LifecycleEvent
      ensures e in chain <==> e in events && About(spec, e)
    {
      assert e in chain <==> e in multiset(chain);
      assert e in events <==> e in multiset(events);
    }
  }

  lemma TwoPlaces(events: seq<LifecycleEvent>, j: nat, k: nat)
    requires j < k < |events| && events[j] == events[k]
    ensures multiset(events)[events[j]] >= 2
  {
    assert events == events[..k] + [events[k]] + events[k + 1..];
    assert events[..k][j] in multiset(events[..k]);
  }

  lemma OnePlace(chain: seq<LifecycleEvent>, e: LifecycleEvent)
    requires DistinctNumbers(chain)
    ensures multiset(chain)[e] <= 1
  {
    if i :| 0 <= i < |chain| && chain[i] == e {
      assert chain == chain[..i] + [e] + chain[i + 1..];
      assert e !in multiset(chain[..i]) && e !in multiset(chain[i + 1..]);
    } else {
      assert e !in multiset(chain);
    }
  }

  lemma LinkedEvent(h: Hashes, spec: Spec, chain: seq<LifecycleEvent>, i: nat)
    requires Linked(h, spec, chain) && i < |chain|
    ensures Belongs(h, spec, chain[i]) && 1 <= chain[i].sequence
    ensures Begins(chain[i]) || (i > 0 && Continues(chain[i], chain[i - 1]))
  {
    hide Belongs, Begins, Continues, Follows, Linked;
    Numbered(h, spec, chain, i);
    LinkAt(h, spec, chain, i);
    FollowsIff(h, spec, chain[i], Prior(chain, i));
  }

  lemma LinkedNumbers(h: Hashes, spec: Spec, chain: seq<LifecycleEvent>)
    requires Linked(h, spec, chain)
    ensures DistinctNumbers(chain)
  {
    hide Linked;
    forall i, j | 0 <= i < j < |chain|
      ensures chain[i].sequence != chain[j].sequence
    {
      Numbered(h, spec, chain, i);
      Numbered(h, spec, chain, j);
    }
  }

  lemma DistinctIsOnce(spec: Spec, events: seq<LifecycleEvent>)
    requires DistinctNumbers(Chain(events, spec.specId))
    ensures !TwoOfOneNumber(spec, events)
  {
    hide Chain;
    var chain := Chain(events, spec.specId);
    forall j, k | 0 <= j < k < |events| && About(spec, events[j]) && About(spec, events[k])
      ensures events[j].sequence != events[k].sequence
    {
      ChainMembers(spec, events);
      var i :| 0 <= i < |chain| && chain[i] == events[j];
      var i' :| 0 <= i' < |chain| && chain[i'] == events[k];
      if i == i' {
        ChainBag(events, spec.specId);
        TwoPlaces(events, j, k);
        OnePlace(chain, events[j]);
      }
    }
  }

  lemma LinkedIsOneChain(h: Hashes, spec: Spec, events: seq<LifecycleEvent>)
    requires Linked(h, spec, Chain(events, spec.specId))
    ensures OneChain(h, spec, events)
  {
    hide Chain, Belongs, Begins, Continues, Linked, DistinctNumbers, TwoOfOneNumber;
    var chain := Chain(events, spec.specId);
    ChainMembers(spec, events);
    LinkedNumbers(h, spec, chain);
    DistinctIsOnce(spec, events);
    forall e | e in events && About(spec, e)
      ensures Belongs(h, spec, e) && 1 <= e.sequence
      ensures Begins(e) || exists p :: p in events && About(spec, p) && Continues(e, p)
    {
      var i :| 0 <= i < |chain| && chain[i] == e;
      LinkedEvent(h, spec, chain, i);
      if !Begins(e) {
        assert chain[i - 1] in chain;
      }
    }
  }

  lemma TailDistinct(spec: Spec, events: seq<LifecycleEvent>)
    requires events != [] && !TwoOfOneNumber(spec, events)
    ensures !TwoOfOneNumber(spec, events[1..])
    ensures forall e :: e in events[1..] && About(spec, e) && About(spec, events[0])
              ==> e.sequence != events[0].sequence
  {
    var rest := events[1..];
    assert forall j :: 0 <= j < |rest| ==> rest[j] == events[j + 1];
  }

  lemma {:induction false} RelevantDistinct(spec: Spec, events: seq<LifecycleEvent>)
    requires !TwoOfOneNumber(spec, events)
    ensures DistinctNumbers(Relevant(events, spec.specId))
    ensures forall e :: e in Relevant(events, spec.specId) <==> e in events && About(spec, e)
  {
    if events != [] {
      var rest := events[1..];
      TailDistinct(spec, events);
      hide TwoOfOneNumber;
      RelevantDistinct(spec, rest);
      assert events == [events[0]] + rest;
    }
  }

  lemma {:induction false} SortDistinct(a: seq<LifecycleEvent>, b: seq<LifecycleEvent>)
    requires DistinctNumbers(a) && multiset(a) == multiset(b)
    ensures DistinctNumbers(b)
  {
    forall i, j | 0 <= i < j < |b|
      ensures b[i].sequence != b[j].sequence
    {
      assert b[i] in multiset(a) && b[j] in multiset(a);
      var i' :| 0 <= i' < |a| && a[i'] == b[i];
      var j' :| 0 <= j' < |a| && a[j'] == b[j];
      if b[i] == b[j] {
        TwoPlaces(b, i, j);
        OnePlace(a, b[i]);
      }
    }
  }

  predicate Rises(chain: seq<LifecycleEvent>) {
    forall j, k :: 0 <= j < k < |chain| ==> chain[j].sequence < chain[k].sequence
  }

  lemma ChainRises(spec: Spec, events: seq<LifecycleEvent>)
    requires !TwoOfOneNumber(spec, events)
    ensures Rises(Chain(events, spec.specId))
  {
    hide TwoOfOneNumber, BySequence;
    var relevant := Relevant(events, spec.specId);
    RelevantDistinct(spec, events);
    SortInSequence(relevant);
    SortDistinct(relevant, BySequence(relevant));
  }

  predicate EachLinked(chain: seq<LifecycleEvent>) {
    forall e :: e in chain ==> 1 <= e.sequence && (Begins(e) || exists p :: p in chain && Continues(e, p))
  }

  lemma PlaceBefore(chain: seq<LifecycleEvent>, i: nat) returns (k: nat)
    requires i < |chain| && Rises(chain) && EachLinked(chain) && !Begins(chain[i])
    ensures k < i && Continues(chain[i], chain[k])
  {
    hide Begins;
    assert chain[i] in chain;
    var p :| p in chain && Continues(chain[i], p);
    k :| 0 <= k < |chain| && chain[k] == p;
  }

  /** Where numbers rise and each event begins or continues a chain, the numbers are the places. */
  lemma {:induction false} NumberedByLinks(chain: seq<LifecycleEvent>, i: nat)
    requires i < |chain| && Rises(chain) && EachLinked(chain)
    ensures chain[i].sequence == i + 1
    ensures if i == 0 then Begins(chain[i]) else Continues(chain[i], chain[i - 1])
  {
    hide EachLinked;
    if i > 0 {
      NumberedByLinks(chain, i - 1);
    }
    if !Begins(chain[i]) {
      var k := PlaceBefore(chain, i);
    }
  }

  lemma OneChainIsLinked(h: Hashes, spec: Spec, events: seq<LifecycleEvent>)
    requires OneChain(h, spec, events)
    ensures Linked(h, spec, Chain(events, spec.specId))
  {
    hide Belongs, Follows, Begins, Continues, Chain, TwoOfOneNumber, DistinctNumbers;
    var chain := Chain(events, spec.specId);
    ChainRises(spec, events);
    ChainMembers(spec, events);
    forall i | 0 <= i < |chain|
      ensures Follows(h, spec, chain[i], Prior(chain, i))
    {
      NumberedByLinks(chain, i);
      assert chain[i] in chain;
      FollowsIff(h, spec, chain[i], Prior(chain, i));
    }
  }

  /** The stored events are read exactly if those about the version are one chain. */
  lemma ReadableIff(h: Hashes, spec: Spec, events: seq<LifecycleEvent>, now: int)
    ensures StateAt(h, spec, events, now).Ok? <==> OneChain(h, spec, events)
  {
    hide OneChain, Chain, Linked;
    if OneChain(h, spec, events) {
      OneChainIsLinked(h, spec, events);
    }
    if Linked(h, spec, Chain(events, spec.specId)) {
      LinkedIsOneChain(h, spec, events);
    }
  }

  /** The event is about the version and has taken effect. */
  predicate TookEffect(spec: Spec, e: LifecycleEvent, now: int) {
    About(spec, e) && if e.effectiveAt.Some? then e.effectiveAt.value <= now else e.eventAt <= now
  }

  lemma {:induction false} InEffectInOrder(h: Hashes, spec: Spec, chain: seq<LifecycleEvent>, n: nat, now: int)
    requires Linked(h, spec, chain) && n <= |chain|
    ensures var applied := InEffect(chain[..n], now);
            Rises(applied) && forall i :: 0 <= i < |applied| ==> applied[i].sequence <= n
  {
    hide Linked, AppliesAt;
    if n > 0 {
      InEffectInOrder(h, spec, chain, n - 1, now);
      InEffectNext(chain, n - 1, now);
      Numbered(h, spec, chain, n - 1);
    }
  }

  /** What is read: exactly the events that have taken effect, by number, and the stage that the last of them led to. */
  lemma StandingIff(h: Hashes, spec: Spec, events: seq<LifecycleEvent>, now: int)
    requires StateAt(h, spec, events, now).Ok?
    ensures var Standing(stage, applied) := StateAt(h, spec, events, now).value;
            && (forall e :: e in applied <==> e in events && TookEffect(spec, e, now))
            && Rises(applied)
            && (stage.None? <==> forall e :: e in events ==> !TookEffect(spec, e, now))
            && forall s :: stage == Some(s)
                 <==> exists e :: e in events && TookEffect(spec, e, now) && e.next == s
                                  && forall f :: f in events && TookEffect(spec, f, now) ==> f.sequence <= e.sequence
  {
    hide Linked, Chain, InEffect, InSequence;
    var chain := Chain(events, spec.specId);
    var applied := InEffect(chain, now);
    assert chain[..|chain|] == chain && InEffect(chain[..|chain|], now) == applied;
    InEffectInOrder(h, spec, chain, |chain|, now);
    InEffectMembers(chain, now);
    ChainMembers(spec, events);
    LastIsGreatest(applied);
  }

  lemma LastIsGreatest(applied: seq<LifecycleEvent>)
    requires Rises(applied)
    ensures StageOf(applied).None? <==> forall e :: e !in applied
    ensures forall s :: StageOf(applied) == Some(s)
              <==> exists e :: e in applied && e.next == s && forall f :: f in applied ==> f.sequence <= e.sequence
  {
    if applied != [] {
      var last := applied[|applied| - 1];
      assert last in applied;
      forall f | f in applied
        ensures f.sequence <= last.sequence && (f == last || f.sequence < last.sequence)
      {
        var i :| 0 <= i < |applied| && applied[i] == f;
      }
    }
  }

  /** Nothing in the past of a version can be exchanged: with an event hash that gives different events different
      hashes, two chains of the version that end with the same event are the same. */
  lemma {:induction false} LastEventFixesChain(h: Hashes, spec: Spec, a: seq<LifecycleEvent>, b: seq<LifecycleEvent>)
    requires forall e, f :: h.event(e) == h.event(f) ==> e == f
    requires Linked(h, spec, a) && Linked(h, spec, b)
    requires a != [] && b != [] && a[|a| - 1] == b[|b| - 1]
    ensures a == b
    decreases |a|
  {
    hide Linked, Follows;
    var m, n := |a| - 1, |b| - 1;
    Numbered(h, spec, a, m);
    Numbered(h, spec, b, n);
    if m > 0 {
      SamePrior(h, spec, a, b);
      ShorterLinked(h, spec, a);
      ShorterLinked(h, spec, b);
      LastEventFixesChain(h, spec, a[..m], b[..m]);
    }
    assert a == a[..m] + [a[m]] && b == b[..m] + [b[m]];
  }

  lemma SamePrior(h: Hashes, spec: Spec, a: seq<LifecycleEvent>, b: seq<LifecycleEvent>)
    requires forall e, f :: h.event(e) == h.event(f) ==> e == f
    requires Linked(h, spec, a) && Linked(h, spec, b)
    requires |a| > 1 && |a| == |b| && a[|a| - 1] == b[|b| - 1]
    ensures a[|a| - 2] == b[|b| - 2]
  {
    hide Linked;
    var n := |a| - 1;
    var e, f := a[n - 1], b[n - 1];
    LinkAt(h, spec, a, n);
    LinkAt(h, spec, b, n);
    assert e.hash == f.hash;
    LinkAt(h, spec, a, n - 1);
    LinkAt(h, spec, b, n - 1);
    assert h.event(e.(hash := "")) == h.event(f.(hash := ""));
    assert e == e.(hash := "").(hash := e.hash) && f == f.(hash := "").(hash := f.hash);
  }

  lemma ShorterLinked(h: Hashes, spec: Spec, chain: seq<LifecycleEvent>)
    requires chain != [] && Linked(h, spec, chain)
    ensures Linked(h, spec, chain[..|chain| - 1])
  {
    hide Follows;
    var shorter := chain[..|chain| - 1];
    forall i | 0 <= i < |shorter|
      ensures Follows(h, spec, shorter[i], Prior(shorter, i))
    {
      assert Prior(shorter, i) == Prior(chain, i);
    }
  }
}
