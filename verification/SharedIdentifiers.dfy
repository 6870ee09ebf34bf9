/** A catalog in which two versions share an identifier, and the wrong answer complete selection gives for it. */
module SharedIdentifiers {
  import opened Wrappers
  import opened Lifecycle
  import opened PolicyGraph
  import opened PolicyCache
  import opened PolicyClosure

  /** The chain of a version in force names that version, so no other version with its identifier is readable. */
  lemma OtherIsRejected(q: Query, a: Spec, b: Spec)
    requires InForce(q, a).Ok? && InForce(q, a).value.Some? && a.specId == b.specId && Reference(a) != Reference(b)
    requires HashesHold(q.hashes, b)
    ensures InForce(q, b) == Err(LifecycleHashInvalid(b.specId))
  {
    hide HashesHold, Chain;
    var chain := Chain(q.events, a.specId);
    assert chain != [];
    LinkAt(q.hashes, a, chain, 0);
    assert !Linked(q.hashes, b, chain) by {
      assert !Follows(q.hashes, b, chain[0], Prior(chain, 0));
    }
  }

  /** Yet it passes as a root after the version in force has been checked. */
  lemma BothAreFound(q: Query, a: Spec, b: Spec)
    requires q.versions == [a, b] && a.specId == b.specId && IsRoot(q, a)
    requires HashesHold(q.hashes, b) && Concerned(q, b) && InWindow(b, q.now)
    ensures RootsFrom(q, q.versions, map[]).0 == Ok([a, b])
  {
    hide HashesHold, StateAt, Concerned, InWindow;
    assert [a, b][..1] == [a] && [a][..0] == [] && [] + [a] == [a] && [a] + [b] == [a, b];
    InForceClaims(q, a);
    assert RootsFrom(q, [], map[]) == (Ok([]), map[]);
    FirstIsFound(q, a);
  }

  lemma FirstIsFound(q: Query, a: Spec)
    requires IsRoot(q, a) && ClaimsPublished(q, a)
    ensures RootsFrom(q, [a], map[]).0 == Ok([a])
    ensures a.specId in RootsFrom(q, [a], map[]).1
    ensures StateAt(q.hashes, a, q.events, q.now) == Ok(RootsFrom(q, [a], map[]).1[a.specId])
  {
    hide HashesHold, StateAt, Concerned, InWindow, ClaimsPublished;
    assert [a][..0] == [] && RootsFrom(q, [], map[]) == (Ok([]), map[]) && [] + [a] == [a];
  }

  /** Two such versions of one module: the answer is "ambiguous" although only one of them is in force. */
  lemma SharedIdentifierMisleads(q: Query, a: Spec, b: Spec)
    requires q.versions == [a, b] && a.specId == b.specId && a.moduleKey == b.moduleKey && Reference(a) != Reference(b)
    requires IsRoot(q, a) && HashesHold(q.hashes, b) && Concerned(q, b) && InWindow(b, q.now)
    ensures DistinctReferences(q.versions) && !AgreeingStates(q)
    ensures RootsFrom(q, q.versions, map[]).0 == Ok([a, b]) && SomePair([a, b])
    ensures !Correct(q, IndexOf(q.versions), Ambiguous)
  {
    hide HashesHold, InForce, Concerned, InWindow, RootsFrom, Reference, Reaches, IndexOf, StateAt;
    OtherIsRejected(q, a, b);
    BothAreFound(q, a, b);
    assert [a, b][0].moduleKey == [a, b][1].moduleKey;
    StatesDisagree(q, a, b);
    assert a in q.versions;
    forall s | s in Roots(q)
      ensures s == a
    {
    }
    var index := IndexOf(q.versions);
    IndexOfIndexes(q.versions);
    if !SomeRootBlocked(q, index) {
      forall s | s in Closure(q, index)
        ensures s == a
      {
        OnlyTheRoot(q, index, a, b, s);
      }
    }
  }

  lemma StatesDisagree(q: Query, a: Spec, b: Spec)
    requires q.versions == [a, b] && a.specId == b.specId && HashesHold(q.hashes, b)
    requires InForce(q, a).Ok? && InForce(q, b) == Err(LifecycleHashInvalid(b.specId))
    ensures !AgreeingStates(q)
  {
    hide HashesHold, StateAt;
    assert a in q.versions && b in q.versions;
    assert Readable(q, a) && !Readable(q, b);
  }

  lemma OnlyTheRoot(q: Query, index: ByRef, a: Spec, b: Spec, s: Spec)
    requires q.versions == [a, b] && Indexes(index, q.versions) && InForce(q, b).Err?
    requires !SomeRootBlocked(q, index) && s in Closure(q, index)
    ensures s == a
  {
    hide InForce, Reaches, IsRoot, OnCycle, ForEnvironment;
    var r :| r in index && Needed(q, index, r) && index[r] == s;
    var root :| IsRoot(q, root) && Reaches(index, Reference(root), r);
    assert !Obstacle(q, index, Reference(root), r);
  }

  // ---- One such catalog ----------------------------------------------------

  /** A version with the hashes it should have. */
  function Hashed(h: Hashes, spec: Spec): Spec {
    var half := spec.(contentHash := "", semanticHash := h.semantic(Unhashed(spec)));
    half.(contentHash := h.content(half))
  }

  lemma HashedHolds(h: Hashes, spec: Spec)
    ensures HashesHold(h, Hashed(h, spec))
  {
    var half := spec.(contentHash := "", semanticHash := h.semantic(Unhashed(spec)));
    assert Hashed(h, spec).(contentHash := "") == half;
    assert Unhashed(Hashed(h, spec)) == Unhashed(spec);
  }

  function ExampleVersion(h: Hashes, version: nat): Spec {
    Hashed(h, Spec(0, 1, "module", version, Coverage("", "", "", ""), None, [], [], None, None, None, "", ""))
  }

  /** The first version is published. */
  function ExampleEvent(h: Hashes): LifecycleEvent {
    var a := ExampleVersion(h, 1);
    var e := LifecycleEvent(0, 2, Reference(a), None, None, Published, 0, None, a.contentHash, {}, 1, "");
    e.(hash := h.event(e))
  }

  function ExampleQuery(h: Hashes): Query {
    Query([ExampleVersion(h, 1), ExampleVersion(h, 2)], [ExampleEvent(h)], 0, Coverage("", "", "", ""), 0, None, h)
  }

  lemma ExampleIsRoot(h: Hashes)
    ensures IsRoot(ExampleQuery(h), ExampleVersion(h, 1))
  {
    hide Hashed, HashesHold;
    var q, a, e := ExampleQuery(h), ExampleVersion(h, 1), ExampleEvent(h);
    ExampleFields(h, 1);
    assert a == q.versions[0];
    assert [e][1..] == [] && [e][..0] == [] && Relevant([e][1..], 1) == [];
    assert Relevant([e], 1) == [e] && BySequence([e][1..]) == [] && BySequence([e]) == [e];
    assert InEffect([e][..0], 0) == [] && InEffect([e], 0) == [e];
    assert e.(hash := "").(hash := e.hash) == e;
    assert Linked(h, a, [e]);
  }

  lemma ExampleFields(h: Hashes, version: nat)
    ensures var s := ExampleVersion(h, version);
            && HashesHold(h, s) && s.version == version && s.specId == 1 && s.tenant == 0 && s.moduleKey == "module"
            && s.coverage == Coverage("", "", "", "") && s.environments.None?
            && s.effectiveFrom.None? && s.effectiveUntil.None?
  {
    HashedHolds(h, Spec(0, 1, "module", version, Coverage("", "", "", ""), None, [], [], None, None, None, "", ""));
  }

  /** Whatever the hash functions, complete selection, called on this catalog of genuine versions, gives an answer that
      is not the right one. */
  method SharedIdentifierRun(h: Hashes) returns (q: Query, r: Result<Selection, Rejection>)
    ensures q.hashes == h && DistinctReferences(q.versions) && forall s :: s in q.versions ==> HashesHold(h, s)
    ensures r.Ok? && !Correct(q, IndexOf(q.versions), r.value)
  {
    hide Correct, IndexOf, RootsFrom, SomePair, InForce, IsRoot, DistinctReferences, HashesHold, ExampleVersion;
    q := ExampleQuery(h);
    ExampleIsRoot(h);
    ExampleFields(h, 1);
    ExampleFields(h, 2);
    var a, b := ExampleVersion(h, 1), ExampleVersion(h, 2);
    SharedIdentifierMisleads(q, a, b);
    r := SelectComplete(q);
  }
}
