/** What the two selections answer, said of versions, their dependencies and their overlays alone. */
module SafePolicies {
  import opened Wrappers
  import opened Lifecycle
  import opened LifecycleState
  import opened Ordering
  import opened PolicyGraph
  import opened PolicyClosure
  import opened DirectSelection

  // ---- Versions ------------------------------------------------------------

  /** The last lifecycle event to have taken effect publishes the version. */
  predicate IsPublished(q: Query, s: Spec) {
    exists e :: e in q.events && TookEffect(s, e, q.now) && e.next == Published
                && forall f :: f in q.events && TookEffect(s, f, q.now) ==> f.sequence <= e.sequence
  }

  /** The version of the tenant carries its own hashes, may be used in this environment, and is published by an unbroken
      chain of events, inside its window. */
  predicate Usable(q: Query, s: Spec) {
    && s in q.versions && s.tenant == q.tenant
    && (s.environments.None? || (q.environment.Some? && q.environment.value in s.environments.value))
    && q.hashes.content(s.(contentHash := "")) == s.contentHash
    && q.hashes.semantic(s.(contentHash := "", semanticHash := "")) == s.semanticHash
    && OneChain(q.hashes, s, q.events) && IsPublished(q, s)
    && (s.effectiveFrom.Some? ==> s.effectiveFrom.value <= q.now)
    && (s.effectiveUntil.Some? ==> q.now < s.effectiveUntil.value)
  }

  /** A usable version about the requested kind of action. */
  predicate Applicable(q: Query, s: Spec) {
    Usable(q, s) && s.coverage == q.coverage
  }

  /** The reference is this version's. */
  predicate Names(d: SpecRef, s: Spec) {
    && d.tenant == s.tenant && d.specId == s.specId && d.moduleKey == s.moduleKey && d.version == s.version
    && d.contentHash == s.contentHash && d.semanticHash == s.semanticHash
  }

  lemma NamesIff(d: SpecRef, s: Spec)
    ensures Names(d, s) <==> Reference(s) == d
  {
  }

  lemma EdgesIff(s: Spec, d: SpecRef)
    ensures d in Edges(s) <==> d in s.dependencies || d in s.overlays
  {
  }

  lemma UsableIff(q: Query, s: Spec)
    ensures Usable(q, s)
            <==> && s in q.versions && s.tenant == q.tenant && ForEnvironment(q, s)
                 && InForce(q, s).Ok? && InForce(q, s).value.Some?
    ensures Applicable(q, s) <==> IsRoot(q, s)
    ensures Usable(q, s) ==> forall e :: e in AppliedTo(q, s) <==> e in q.events && TookEffect(s, e, q.now)
  {
    hide StateAt, OneChain, TookEffect;
    ReadableIff(q.hashes, s, q.events, q.now);
    if OneChain(q.hashes, s, q.events) {
      StandingIff(q.hashes, s, q.events, q.now);
    }
  }

  lemma GoodIff(q: Query, index: ByRef, x: SpecRef)
    requires Indexes(index, q.versions)
    ensures Good(q, index, x) <==> x in index && Usable(q, index[x])
  {
    hide InForce, ForEnvironment, Usable;
    if x in index {
      UsableIff(q, index[x]);
    }
  }

  // ---- Safe sets of versions -----------------------------------------------

  /** Versions that may be used together: all usable, and everything a member depends on or is overlaid by is a member,
      without going round in a circle. */
  ghost predicate Safe(q: Query, specs: iset<Spec>, rank: Spec -> nat) {
    && (forall s :: s in specs ==> Usable(q, s))
    && forall s, d :: s in specs && (d in s.dependencies || d in s.overlays)
         ==> exists t :: t in specs && Names(d, t) && rank(t) < rank(s)
  }

  lemma SafeMembers(q: Query, specs: iset<Spec>, rank: Spec -> nat)
    requires Safe(q, specs, rank)
    ensures forall s :: s in specs ==> Usable(q, s)
  {
    hide Usable, Names;
  }

  ghost predicate HoldsApplicable(q: Query, specs: iset<Spec>) {
    forall s :: Applicable(q, s) ==> s in specs
  }

  /** Some safe set holds every applicable version. */
  ghost predicate SafelyCovered(q: Query) {
    exists specs: iset<Spec>, rank: Spec -> nat :: Safe(q, specs, rank) && HoldsApplicable(q, specs)
  }

  lemma {:induction false} PathStaysSafe(q: Query, index: ByRef, specs: iset<Spec>, rank: Spec -> nat,
                                         p: seq<SpecRef>, i: nat) returns (s: Spec)
    requires DistinctReferences(q.versions) && Indexes(index, q.versions) && Safe(q, specs, rank)
    requires IsPath(index, p) && i < |p| && p[0] in index && index[p[0]] in specs
    ensures s in specs && p[i] in index && index[p[i]] == s && rank(s) + i <= rank(index[p[0]])
  {
    hide Usable, Edges, DistinctReferences, Indexes, Names;
    if i == 0 {
      s := index[p[0]];
    } else {
      var before := PathStaysSafe(q, index, specs, rank, p, i - 1);
      assert p[(i - 1) + 1] in Edges(index[p[i - 1]]);
      EdgesIff(before, p[i]);
      s :| s in specs && Names(p[i], s) && rank(s) < rank(before);
      NamesIff(p[i], s);
      assert s in q.versions by { UsableIff(q, s); }
      UniqueIndex(index, q.versions, s);
    }
  }

  /** Whatever a member of a safe set leads to is a member, and on no cycle. */
  lemma ReachStaysSafe(q: Query, index: ByRef, specs: iset<Spec>, rank: Spec -> nat, a: SpecRef, x: SpecRef)
    requires DistinctReferences(q.versions) && Indexes(index, q.versions) && Safe(q, specs, rank)
    requires a in index && index[a] in specs && Reaches(index, a, x)
    ensures x in index && index[x] in specs && Good(q, index, x) && !OnCycle(index, x)
  {
    hide Usable, DistinctReferences, Indexes, IsPath, Good;
    var p :| Joins(index, p, a, x);
    NonEmptyPath(index, p);
    var s := PathStaysSafe(q, index, specs, rank, p, |p| - 1);
    GoodIff(q, index, x);
    forall c | |c| >= 2 && Joins(index, c, x, x)
      ensures false
    {
      var t := PathStaysSafe(q, index, specs, rank, c, |c| - 1);
    }
  }

  lemma SafeIsUnblocked(q: Query, index: ByRef, specs: iset<Spec>, rank: Spec -> nat)
    requires DistinctReferences(q.versions) && Indexes(index, q.versions) && Safe(q, specs, rank)
    requires HoldsApplicable(q, specs)
    ensures !SomeRootBlocked(q, index) && forall s :: s in Closure(q, index) ==> s in specs
  {
    hide Applicable, DistinctReferences, Indexes, Reaches, OnCycle, Good, IsRoot, Safe;
    forall root | IsRoot(q, root)
      ensures !Blocked(q, index, Reference(root))
      ensures forall x :: Reaches(index, Reference(root), x) ==> x in index && index[x] in specs
    {
      UsableIff(q, root);
      RootIndexed(q, index, root);
      forall x | Reaches(index, Reference(root), x)
        ensures x in index && index[x] in specs && Good(q, index, x) && !OnCycle(index, x)
      {
        ReachStaysSafe(q, index, specs, rank, Reference(root), x);
      }
    }
    forall s | s in Closure(q, index)
      ensures s in specs
    {
      var r :| r in index && Needed(q, index, r) && index[r] == s;
      var root :| IsRoot(q, root) && Reaches(index, Reference(root), r);
    }
  }

  /** How many references a version leads to. */
  ghost function Depth(index: ByRef, s: Spec): nat {
    |set x | x in index.Keys && Reaches(index, Reference(s), x)|
  }

  lemma DepthFallsAlong(q: Query, index: ByRef, s: Spec, t: Spec)
    requires Reference(s) in index && index[Reference(s)] == s && Reference(t) in index && Reference(t) in Edges(s)
    requires !OnCycle(index, Reference(s))
    ensures Depth(index, t) < Depth(index, s)
  {
    hide Edges, Reaches, OnCycle, Reference;
    var a, d := Reference(s), Reference(t);
    var below := set x | x in index.Keys && Reaches(index, d, x);
    var above := set x | x in index.Keys && Reaches(index, a, x);
    forall x | x in below
      ensures x in above
    {
      ReachFromEdge(index, a, d, x);
    }
    PathToItself(index, a);
    if Reaches(index, d, a) {
      EdgeBackIsCycle(index, a, d);
    }
    assert a in above && a !in below;
    assert below <= above - {a};
    SmallerSet(below, above - {a});
  }

  lemma {:induction false} SmallerSet(small: set<SpecRef>, large: set<SpecRef>)
    requires small <= large
    ensures |small| <= |large|
  {
    if x :| x in small {
      SmallerSet(small - {x}, large - {x});
    } else {
      assert small == {};
    }
  }

  lemma EdgeBackIsCycle(index: ByRef, a: SpecRef, d: SpecRef)
    requires a in index && d in Edges(index[a]) && Reaches(index, d, a)
    ensures OnCycle(index, a)
  {
    hide Edges;
    var p :| Joins(index, p, d, a);
    PathFromEdge(index, a, d, p, a);
    assert |[a] + p| >= 2;
  }

  lemma ReachOneMore(index: ByRef, a: SpecRef, r: SpecRef, d: SpecRef)
    requires Reaches(index, a, r) && r in index && d in Edges(index[r])
    ensures Reaches(index, a, d)
  {
    hide Edges;
    var p :| Joins(index, p, a, r);
    LongerTrail(index, p, d);
    assert Joins(index, p + [d], a, d);
  }

  /** Where nothing obstructs the roots, their closure is a safe set. */
  lemma ClosureIsSafe(q: Query, index: ByRef)
    requires DistinctReferences(q.versions) && Indexes(index, q.versions) && !SomeRootBlocked(q, index)
    ensures Safe(q, Closure(q, index), (s: Spec) => Depth(index, s)) && HoldsApplicable(q, Closure(q, index))
  {
    hide Usable, DistinctReferences, Indexes, Reaches, OnCycle, Good, IsRoot, Edges, Depth, Names, Applicable;
    var closure := Closure(q, index);
    forall s | Applicable(q, s)
      ensures s in closure
    {
      UsableIff(q, s);
      RootIndexed(q, index, s);
      PathToItself(index, Reference(s));
      assert Needed(q, index, Reference(s));
    }
    forall s | s in closure
      ensures Usable(q, s)
      ensures forall d :: d in s.dependencies || d in s.overlays
                ==> exists t :: t in closure && Names(d, t) && Depth(index, t) < Depth(index, s)
    {
      var r :| r in index && Needed(q, index, r) && index[r] == s;
      var root :| IsRoot(q, root) && Reaches(index, Reference(root), r);
      assert !Blocked(q, index, Reference(root));
      assert !Obstacle(q, index, Reference(root), r);
      GoodIff(q, index, r);
      FiledUnder(index, q.versions, r);
      forall d | d in s.dependencies || d in s.overlays
        ensures exists t :: t in closure && Names(d, t) && Depth(index, t) < Depth(index, s)
      {
        EdgesIff(s, d);
        ReachOneMore(index, Reference(root), r, d);
        assert !Obstacle(q, index, Reference(root), d);
        GoodIff(q, index, d);
        FiledUnder(index, q.versions, d);
        assert Needed(q, index, d);
        NamesIff(d, index[d]);
        DepthFallsAlong(q, index, s, index[d]);
      }
    }
  }

  // ---- Complete selection --------------------------------------------------

  ghost predicate OneModuleTwice(specs: iset<Spec>) {
    exists s, t :: s in specs && t in specs && s != t && s.moduleKey == t.moduleKey
  }

  ghost function Applicables(q: Query): iset<Spec> { iset s | Applicable(q, s) }

  ghost function Members(specs: seq<Spec>): iset<Spec> { iset s | s in specs }

  /** The event is one that has taken effect on a version given. */
  predicate Moved(q: Query, c: Selection, s: Spec, e: LifecycleEvent)
    requires c.Complete?
  {
    s in c.specs && e in q.events && TookEffect(s, e, q.now)
  }

  /** With the versions come references to all their events in effect and to all decisions those accepted. */
  ghost predicate Evidences(q: Query, c: Selection)
    requires c.Complete?
  {
    && (forall x :: x in c.events <==> exists s, e :: Moved(q, c, s, e) && x == ObjectRef(e.tenant, e.eventId, e.hash))
    && (forall x :: x in c.decisions <==> exists s, e :: Moved(q, c, s, e) && x in e.acceptedDecisions)
  }

  lemma EvidencesIff(q: Query, c: Selection)
    requires c.Complete? && forall s :: s in c.specs ==> Usable(q, s)
    requires forall x :: x in c.events
               <==> exists s, e :: s in c.specs && e in AppliedTo(q, s) && x == EventReference(e)
    requires forall x :: x in c.decisions
               <==> exists s, e :: s in c.specs && e in AppliedTo(q, s) && x in e.acceptedDecisions
    ensures Evidences(q, c)
  {
    hide Usable, AppliedTo, TookEffect;
    forall s, e
      ensures s in c.specs && e in AppliedTo(q, s) <==> Moved(q, c, s, e)
    {
      UsableIff(q, s);
    }
    assert forall e :: EventReference(e) == ObjectRef(e.tenant, e.eventId, e.hash);
    forall x
      ensures x in c.events <==> exists s, e :: Moved(q, c, s, e) && x == ObjectRef(e.tenant, e.eventId, e.hash)
    {
      if s, e :| s in c.specs && e in AppliedTo(q, s) && x == EventReference(e) {
        assert Moved(q, c, s, e);
      }
    }
    forall x
      ensures x in c.decisions <==> exists s, e :: Moved(q, c, s, e) && x in e.acceptedDecisions
    {
      if s, e :| s in c.specs && e in AppliedTo(q, s) && x in e.acceptedDecisions {
        assert Moved(q, c, s, e);
      }
    }
  }

  /** The right outcome of complete selection. Nothing applies: no safe policy. Two applicable versions of one module:
      ambiguous. No safe set holds all that applies: no safe policy. Two versions of one module in every safe set that
      holds all that applies: ambiguous. Otherwise the versions given are themselves a safe set that holds all that
      applies, the least one, each module once. */
  lemma OutcomeIsSafe(q: Query, c: Selection)
    requires DistinctReferences(q.versions) && Correct(q, IndexOf(q.versions), c)
    ensures if !(exists s :: Applicable(q, s)) then c == NoSafePolicy
            else if OneModuleTwice(Applicables(q)) then c == Ambiguous
            else if !SafelyCovered(q) then c == NoSafePolicy
            else
              && c != NoSafePolicy
              && (c == Ambiguous
                  ==> forall specs, rank :: Safe(q, specs, rank) && HoldsApplicable(q, specs) ==> OneModuleTwice(specs))
              && (c.Complete?
                  ==> && (exists rank :: Safe(q, Members(c.specs), rank)) && HoldsApplicable(q, Members(c.specs))
                      && StrictlySorted(c.specs, ModuleKey) && Evidences(q, c)
                      && (forall specs, rank :: Safe(q, specs, rank) && HoldsApplicable(q, specs)
                            ==> forall s :: s in c.specs ==> s in specs))
  {
    hide DistinctReferences, IndexOf, Indexes, Usable, Reaches, Safe, Depth, SomeRootBlocked, StrictlySorted, Closure;
    hide IsRoot, Applicable, HoldsApplicable;
    var index := IndexOf(q.versions);
    IndexOfIndexes(q.versions);
    forall s
      ensures Applicable(q, s) <==> IsRoot(q, s)
    {
      UsableIff(q, s);
    }
    assert Applicables(q) == Roots(q);
    assert OneModuleTwice(Roots(q)) <==> SharedModule(Roots(q));
    forall specs: iset<Spec>, rank: Spec -> nat | Safe(q, specs, rank) && HoldsApplicable(q, specs)
      ensures !SomeRootBlocked(q, index) && forall s :: s in Closure(q, index) ==> s in specs
    {
      SafeIsUnblocked(q, index, specs, rank);
    }
    if !SomeRootBlocked(q, index) {
      ClosureIsSafe(q, index);
      if c.Complete? && Describes(q, Closure(q, index), c) {
        assert Members(c.specs) == Closure(q, index);
        SafeMembers(q, Closure(q, index), (s: Spec) => Depth(index, s));
        assert forall s :: s in c.specs <==> s in Closure(q, index);
        EvidencesIff(q, c);
      }
    }
  }

  /** A complete selection contains, in force, every dependency and every overlay of what it contains; and it contains
      nothing else than what applies and what its members depend on or are overlaid by. */
  lemma CompleteIsClosed(q: Query, c: Selection)
    requires DistinctReferences(q.versions) && Correct(q, IndexOf(q.versions), c) && c.Complete?
    ensures forall s, d :: s in c.specs && (d in s.dependencies || d in s.overlays)
              ==> exists t :: t in c.specs && Names(d, t) && Usable(q, t)
    ensures forall t :: t in c.specs
              ==> Applicable(q, t)
                  || exists s, d :: s in c.specs && (d in s.dependencies || d in s.overlays) && Names(d, t)
  {
    hide DistinctReferences, IndexOf, Indexes, Usable, Reaches, SomeRootBlocked, StrictlySorted, Applicable, IsRoot;
    hide SharedModule, Depth, Names;
    var index := IndexOf(q.versions);
    IndexOfIndexes(q.versions);
    ClosureIsSafe(q, index);
    forall t | t in c.specs
      ensures Applicable(q, t)
              || exists s, d :: s in c.specs && (d in s.dependencies || d in s.overlays) && Names(d, t)
    {
      var r :| r in index && Needed(q, index, r) && index[r] == t;
      var root :| IsRoot(q, root) && Reaches(index, Reference(root), r);
      UsableIff(q, root);
      FiledUnder(index, q.versions, r);
      NamesIff(r, t);
      RootIndexed(q, index, root);
      if Reference(root) != r {
        var x := LastEdge(index, Reference(root), r);
        assert Needed(q, index, x);
        EdgesIff(index[x], r);
        assert index[x] in Closure(q, index);
      }
    }
  }

  lemma LastEdge(index: ByRef, a: SpecRef, r: SpecRef) returns (x: SpecRef)
    requires Reaches(index, a, r) && a != r
    ensures x in index && Reaches(index, a, x) && r in Edges(index[x])
  {
    hide Edges;
    var p :| Joins(index, p, a, r);
    var n := |p| - 1;
    x := p[n - 1];
    assert p[(n - 1) + 1] == r;
    assert Joins(index, p[..n], a, x);
  }

  // ---- Direct selection ----------------------------------------------------

  /** An applicable version of the requested namespace. */
  predicate Proposed(q: Query, ns: Option<string>, s: Spec) {
    Applicable(q, s) && s.policyNamespace == ns
  }

  /** Everything the version depends on or is overlaid by is itself proposed. */
  ghost predicate Supported(q: Query, ns: Option<string>, s: Spec) {
    forall d :: d in s.dependencies || d in s.overlays
      ==> exists t :: t in q.versions && Names(d, t) && Proposed(q, ns, t)
  }

  /** Two places of the catalog hold proposed versions of one module. */
  predicate ProposedTwice(q: Query, ns: Option<string>) {
    exists j, k :: 0 <= j < k < |q.versions| && Proposed(q, ns, q.versions[j]) && Proposed(q, ns, q.versions[k])
                   && q.versions[j].moduleKey == q.versions[k].moduleKey
  }

  lemma CandidateIff(q: Query, ns: Option<string>, s: Spec)
    requires s in q.versions
    ensures s.tenant == q.tenant && Candidate(q, ns, s) <==> Proposed(q, ns, s)
  {
    hide InForce, Usable;
    UsableIff(q, s);
  }

  lemma CandidatesProposed(q: Query, ns: Option<string>)
    requires Candidates(q, ns, q.versions).Ok?
    ensures forall s :: s in Candidates(q, ns, q.versions).value <==> Proposed(q, ns, s)
  {
    hide Candidates, Candidate, Usable;
    CandidateMembers(q, ns, q.versions);
    forall s: Spec
      ensures s in Candidates(q, ns, q.versions).value <==> Proposed(q, ns, s)
    {
      if s in q.versions {
        CandidateIff(q, ns, s);
      } else if Proposed(q, ns, s) {
        ProposedListed(q, ns, s);
      }
    }
  }

  /** Two candidates of one module stand at two places of the catalog. */
  lemma {:induction false} PairIff(q: Query, ns: Option<string>, versions: seq<Spec>)
    requires Candidates(q, ns, versions).Ok? && forall s :: s in versions ==> s in q.versions
    ensures SomePair(Candidates(q, ns, versions).value)
            <==> exists j, k :: 0 <= j < k < |versions| && Proposed(q, ns, versions[j])
                                && Proposed(q, ns, versions[k]) && versions[j].moduleKey == versions[k].moduleKey
  {
    hide InForce, Candidate, Proposed;
    if versions != [] {
      var n := |versions| - 1;
      var s, before := versions[n], Candidates(q, ns, versions[..n]).value;
      assert versions == versions[..n] + [s];
      PairIff(q, ns, versions[..n]);
      CandidateMembers(q, ns, versions[..n]);
      CandidateIff(q, ns, s);
      forall t | t in versions[..n]
        ensures t in before <==> Proposed(q, ns, t)
      {
        CandidateIff(q, ns, t);
      }
      if Proposed(q, ns, s) {
        PairWithLast(before, s);
        assert (exists t :: t in before && t.moduleKey == s.moduleKey)
            <==> exists j :: 0 <= j < n && Proposed(q, ns, versions[j]) && versions[j].moduleKey == s.moduleKey by {
          if t :| t in before && t.moduleKey == s.moduleKey {
            var j :| 0 <= j < n && versions[..n][j] == t;
            assert versions[j] == t;
          }
          if j :| 0 <= j < n && Proposed(q, ns, versions[j]) && versions[j].moduleKey == s.moduleKey {
            assert versions[..n][j] in before;
          }
        }
      }
    }
  }

  lemma PairWithLast(specs: seq<Spec>, s: Spec)
    ensures SomePair(specs + [s]) <==> SomePair(specs) || exists t :: t in specs && t.moduleKey == s.moduleKey
  {
    var all := specs + [s];
    if SomePair(specs) {
      var i, j :| 0 <= i < j < |specs| && specs[i].moduleKey == specs[j].moduleKey;
      assert all[i].moduleKey == all[j].moduleKey;
    }
    if t :| t in specs && t.moduleKey == s.moduleKey {
      var i :| 0 <= i < |specs| && specs[i] == t;
      assert all[i].moduleKey == all[|specs|].moduleKey;
    }
    if SomePair(all) {
      var i, j :| 0 <= i < j < |all| && all[i].moduleKey == all[j].moduleKey;
      assert all[i] in specs;
      if j < |specs| {
        assert specs[i].moduleKey == specs[j].moduleKey;
      }
    }
  }

  /** The answer of direct selection: ambiguous where a module is proposed twice; otherwise all proposed versions, each
      module once, if there are any and each is supported; else no safe policy. */
  lemma DirectAnswers(q: Query, ns: Option<string>, c: Selection)
    requires DirectSelection.DirectSelection(q, ns) == Ok(c)
    ensures if ProposedTwice(q, ns) then c == Ambiguous
            else if (exists s :: Proposed(q, ns, s)) && (forall s :: Proposed(q, ns, s) ==> Supported(q, ns, s)) then
              && c.Complete? && StrictlySorted(c.specs, ModuleKey)
              && (forall s :: s in c.specs <==> Proposed(q, ns, s))
              && Evidences(q, c)
            else c == NoSafePolicy
  {
    hide Candidates, SomePair, SortBy, Proposed, StrictlySorted, AppliedTo, Edges, Names, Reference;
    CompleteOutcome(q, ns, c);
    var found := Candidates(q, ns, q.versions).value;
    CandidatesProposed(q, ns);
    PairIff(q, ns, q.versions);
    forall s, d
      ensures d in Edges(s) <==> d in s.dependencies || d in s.overlays
      ensures Names(d, s) <==> Reference(s) == d
    {
      EdgesIff(s, d);
      NamesIff(d, s);
    }
    assert forall t :: Proposed(q, ns, t) ==> t in q.versions by {
      forall t | Proposed(q, ns, t)
        ensures t in q.versions
      {
        ProposedListed(q, ns, t);
      }
    }
    assert ClosedAt(found) <==> forall s :: Proposed(q, ns, s) ==> Supported(q, ns, s);
    assert found != [] ==> found[0] in found;
    if c.Complete? {
      SortedByModule(found);
      SortByMembers(found, ModuleKey);
      forall s | s in c.specs
        ensures Usable(q, s)
      {
        ProposedListed(q, ns, s);
      }
      EvidencesIff(q, c);
    }
  }

  lemma ProposedListed(q: Query, ns: Option<string>, s: Spec)
    requires Proposed(q, ns, s)
    ensures s in q.versions && Usable(q, s)
  {
    hide OneChain, IsPublished;
  }

  // ---- Rejections ----------------------------------------------------------

  /** The version does not carry its own hashes. */
  predicate Misnamed(q: Query, s: Spec) {
    || q.hashes.content(s.(contentHash := "")) != s.contentHash
    || q.hashes.semantic(s.(contentHash := "", semanticHash := "")) != s.semanticHash
  }

  predicate RejectedFor(q: Query, s: Spec, reason: Rejection) {
    if Misnamed(q, s) then reason == PolicyHashInvalid(s.specId)
    else !OneChain(q.hashes, s, q.events) && reason == LifecycleHashInvalid(s.specId)
  }

  lemma RejectedIff(q: Query, s: Spec)
    ensures forall reason :: InForce(q, s) == Err(reason) <==> RejectedFor(q, s, reason)
    ensures InForce(q, s).Err? <==> Misnamed(q, s) || !OneChain(q.hashes, s, q.events)
  {
    hide StateAt, OneChain;
    ReadableIff(q.hashes, s, q.events, q.now);
    StateRejects(q, s);
  }

  lemma StateRejects(q: Query, s: Spec)
    ensures StateAt(q.hashes, s, q.events, q.now).Err?
            ==> StateAt(q.hashes, s, q.events, q.now).error == LifecycleHashInvalid(s.specId)
  {
    hide Linked, Chain, InEffect;
  }

  /** Complete selection can be rejected only for a version of the catalog without its hashes or its chain. */
  lemma UntrustedIff(q: Query, reason: Rejection)
    ensures Untrusted(q, reason) <==> exists s :: s in q.versions && RejectedFor(q, s, reason)
  {
    hide InForce, RejectedFor;
    forall s
      ensures InForce(q, s) == Err(reason) <==> RejectedFor(q, s, reason)
    {
      RejectedIff(q, s);
    }
  }

  /** The version at this place is the first of the tenant to be rejected, and for this reason. */
  predicate FirstRejected(q: Query, versions: seq<Spec>, k: nat, reason: Rejection)
    requires k < |versions|
  {
    && versions[k].tenant == q.tenant && RejectedFor(q, versions[k], reason)
    && forall j :: 0 <= j < k && versions[j].tenant == q.tenant
         ==> !Misnamed(q, versions[j]) && OneChain(q.hashes, versions[j], q.events)
  }

  lemma {:induction false} CandidatesRejected(q: Query, ns: Option<string>, versions: seq<Spec>, reason: Rejection)
    ensures Candidates(q, ns, versions).Ok?
            <==> forall s :: s in versions && s.tenant == q.tenant
                   ==> !Misnamed(q, s) && OneChain(q.hashes, s, q.events)
    ensures Candidates(q, ns, versions) == Err(reason)
            <==> exists k :: 0 <= k < |versions| && FirstRejected(q, versions, k, reason)
  {
    hide InForce, Candidate, OneChain, Misnamed, RejectedFor;
    if versions != [] {
      var n := |versions| - 1;
      var before := versions[..n];
      CandidatesRejected(q, ns, before, reason);
      RejectedIff(q, versions[n]);
      assert versions == before + [versions[n]];
      forall k | 0 <= k < n
        ensures FirstRejected(q, before, k, reason) <==> FirstRejected(q, versions, k, reason)
      {
      }
      assert FirstRejected(q, versions, n, reason)
          <==> && Candidates(q, ns, before).Ok? && versions[n].tenant == q.tenant
               && RejectedFor(q, versions[n], reason) by {
        forall s | s in before
          ensures exists j :: 0 <= j < n && versions[j] == s
        {
          var j :| 0 <= j < n && before[j] == s;
          assert versions[j] == s;
        }
      }
    }
  }

  /** Direct selection is rejected exactly for the first version of the tenant, in catalog order, that does not carry
      its hashes or whose events are not one chain. */
  lemma DirectRejectsIff(q: Query, ns: Option<string>, reason: Rejection)
    ensures DirectSelection.DirectSelection(q, ns) == Err(reason)
            <==> exists k :: 0 <= k < |q.versions| && FirstRejected(q, q.versions, k, reason)
  {
    hide Candidates, FirstRejected, SomePair, ClosedAt, SortBy, AllEvents, AllDecisions;
    CandidatesRejected(q, ns, q.versions, reason);
  }
}
