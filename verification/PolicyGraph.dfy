/** The dependency graph of a policy catalog, and what a complete selection from it must be. */
module PolicyGraph {
  import opened Wrappers
  import opened Lifecycle
  import opened Ordering

  /** One selection request against one catalog. */
  datatype Query = Query(versions: seq<Spec>, events: seq<LifecycleEvent>, tenant: nat, coverage: Coverage, now: int,
                         environment: Option<string>, hashes: Hashes)

  // ---- One version ---------------------------------------------------------

  predicate InWindow(spec: Spec, now: int) {
    && (spec.effectiveFrom.Some? ==> spec.effectiveFrom.value <= now)
    && (spec.effectiveUntil.Some? ==> now < spec.effectiveUntil.value)
  }

  /** What the semantic hash may cover. */
  function Unhashed(spec: Spec): Spec { spec.(contentHash := "", semanticHash := "") }

  predicate HashesHold(h: Hashes, spec: Spec) {
    h.content(spec.(contentHash := "")) == spec.contentHash && h.semantic(Unhashed(spec)) == spec.semanticHash
  }

  /** The events that put a version in force, nothing if it is not, or the reason it cannot be trusted. */
  function InForce(q: Query, spec: Spec): Result<Option<seq<LifecycleEvent>>, Rejection> {
    if !HashesHold(q.hashes, spec) then Err(PolicyHashInvalid(spec.specId))
    else
      match StateAt(q.hashes, spec, q.events, q.now)
      case Err(e) => Err(e)
      case Ok(standing) =>
        Ok(if standing.stage == Some(Published) && InWindow(spec, q.now) then Some(standing.applied) else None)
  }

  /** A correction is only for the environments it lists. */
  predicate ForEnvironment(q: Query, spec: Spec) {
    spec.environments.None? || (q.environment.Some? && q.environment.value in spec.environments.value)
  }

  predicate Concerned(q: Query, spec: Spec) {
    spec.tenant == q.tenant && spec.coverage == q.coverage && ForEnvironment(q, spec)
  }

  predicate IsRoot(q: Query, spec: Spec) {
    spec in q.versions && Concerned(q, spec) && InForce(q, spec).Ok? && InForce(q, spec).value.Some?
  }

  predicate UniqueIds(versions: seq<Spec>) {
    forall i, j :: 0 <= i < j < |versions| ==> versions[i].specId != versions[j].specId
  }

  predicate DistinctReferences(versions: seq<Spec>) {
    forall i, j :: 0 <= i < j < |versions| ==> Reference(versions[i]) != Reference(versions[j])
  }

  // ---- The graph -----------------------------------------------------------

  type ByRef = map<SpecRef, Spec>

  /** The dictionary of the catalog: every version under its reference. */
  predicate Indexes(index: ByRef, versions: seq<Spec>) {
    && (forall s :: s in versions ==> Reference(s) in index)
    && (forall r :: r in index ==> index[r] in versions && Reference(index[r]) == r)
  }

  /** A later version replaces an earlier one with the same reference. */
  function IndexOf(versions: seq<Spec>): ByRef {
    if versions == [] then map[]
    else
      var n := |versions| - 1;
      IndexOf(versions[..n])[Reference(versions[n]) := versions[n]]
  }

  lemma {:induction false} IndexOfIndexes(versions: seq<Spec>)
    ensures Indexes(IndexOf(versions), versions)
  {
    if versions != [] {
      var n := |versions| - 1;
      IndexOfIndexes(versions[..n]);
      assert versions == versions[..n] + [versions[n]];
    }
  }

  /** Where references are distinct, each version is the one filed under its reference. */
  lemma UniqueIndex(index: ByRef, versions: seq<Spec>, s: Spec)
    requires DistinctReferences(versions) && Indexes(index, versions) && s in versions
    ensures Reference(s) in index && index[Reference(s)] == s
  {
    var t := index[Reference(s)];
    assert Reference(t) == Reference(s);
    var i :| 0 <= i < |versions| && versions[i] == s;
    var j :| 0 <= j < |versions| && versions[j] == t;
  }

  lemma FiledUnder(index: ByRef, versions: seq<Spec>, d: SpecRef)
    requires Indexes(index, versions) && d in index
    ensures Reference(index[d]) == d
  {
  }

  function Edges(spec: Spec): seq<SpecRef> { spec.dependencies + spec.overlays }

  predicate IsPath(index: ByRef, p: seq<SpecRef>) {
    p != [] && forall i :: 0 <= i < |p| - 1 ==> p[i] in index && p[i + 1] in Edges(index[p[i]])
  }

  predicate Joins(index: ByRef, p: seq<SpecRef>, a: SpecRef, b: SpecRef) {
    IsPath(index, p) && p[0] == a && p[|p| - 1] == b
  }

  ghost predicate Reaches(index: ByRef, a: SpecRef, b: SpecRef) {
    exists p: seq<SpecRef> :: Joins(index, p, a, b)
  }

  ghost predicate OnCycle(index: ByRef, a: SpecRef) {
    exists p: seq<SpecRef> :: |p| >= 2 && Joins(index, p, a, a)
  }

  /** Known, of the tenant, for the environment, and in force. */
  predicate Good(q: Query, index: ByRef, r: SpecRef) {
    && r in index && index[r].tenant == q.tenant && ForEnvironment(q, index[r])
    && InForce(q, index[r]).Ok? && InForce(q, index[r]).value.Some?
  }

  ghost predicate Obstacle(q: Query, index: ByRef, a: SpecRef, x: SpecRef) {
    Reaches(index, a, x) && (!Good(q, index, x) || OnCycle(index, x))
  }

  /** Something reachable is missing, foreign, for another environment, not in force, or on a cycle. */
  ghost predicate Blocked(q: Query, index: ByRef, a: SpecRef) {
    exists x :: Obstacle(q, index, a, x)
  }

  // ---- What a complete selection is ----------------------------------------

  datatype Selection =
    | NoSafePolicy
    | Ambiguous
    | Complete(specs: seq<Spec>, events: set<ObjectRef>, decisions: set<ObjectRef>)

  ghost predicate Needed(q: Query, index: ByRef, r: SpecRef) {
    exists root :: IsRoot(q, root) && Reaches(index, Reference(root), r)
  }

  ghost predicate SharedModule(specs: iset<Spec>) {
    exists a, b :: a in specs && b in specs && a != b && a.moduleKey == b.moduleKey
  }

  ghost function Roots(q: Query): iset<Spec> { iset s | IsRoot(q, s) }

  /** The versions reachable from the roots. */
  ghost function Closure(q: Query, index: ByRef): iset<Spec> { iset r | r in index && Needed(q, index, r) :: index[r] }

  ghost predicate SomeRootBlocked(q: Query, index: ByRef) {
    exists root :: IsRoot(q, root) && Blocked(q, index, Reference(root))
  }

  function AppliedTo(q: Query, s: Spec): seq<LifecycleEvent> {
    match InForce(q, s)
    case Ok(Some(applied)) => applied
    case _ => []
  }

  function ModuleKey(s: Spec): string { s.moduleKey }

  ghost predicate Describes(q: Query, closure: iset<Spec>, c: Selection) {
    && c.Complete?
    && StrictlySorted(c.specs, ModuleKey)
    && (forall s :: s in c.specs <==> s in closure)
    && (forall x :: x in c.events <==> exists s, e :: s in closure && e in AppliedTo(q, s) && x == EventReference(e))
    && (forall x :: x in c.decisions
          <==> exists s, e :: s in closure && e in AppliedTo(q, s) && x in e.acceptedDecisions)
  }

  /** The one right outcome. */
  ghost predicate Correct(q: Query, index: ByRef, c: Selection) {
    if !(exists s :: IsRoot(q, s)) then c == NoSafePolicy
    else if SharedModule(Roots(q)) then c == Ambiguous
    else if SomeRootBlocked(q, index) then c == NoSafePolicy
    else if SharedModule(Closure(q, index)) then c == Ambiguous
    else Describes(q, Closure(q, index), c)
  }

  // ---- Paths ---------------------------------------------------------------

  lemma PathToItself(index: ByRef, a: SpecRef)
    ensures Reaches(index, a, a)
  {
    assert Joins(index, [a], a, a);
  }

  lemma PathFromEdge(index: ByRef, a: SpecRef, d: SpecRef, p: seq<SpecRef>, x: SpecRef)
    requires a in index && d in Edges(index[a]) && Joins(index, p, d, x)
    ensures Joins(index, [a] + p, a, x)
  {
    var r := [a] + p;
    forall i | 0 <= i < |r| - 1
      ensures r[i] in index && r[i + 1] in Edges(index[r[i]])
    {
      if i > 0 {
        assert r[i] == p[i - 1] && r[i + 1] == p[i];
      }
    }
  }

  lemma ReachFromEdge(index: ByRef, a: SpecRef, d: SpecRef, x: SpecRef)
    requires a in index && d in Edges(index[a]) && Reaches(index, d, x)
    ensures Reaches(index, a, x)
  {
    hide Joins;
    var p :| Joins(index, p, d, x);
    PathFromEdge(index, a, d, p, x);
  }

  lemma BlockedFromEdge(q: Query, index: ByRef, a: SpecRef, d: SpecRef)
    requires a in index && d in Edges(index[a]) && Blocked(q, index, d)
    ensures Blocked(q, index, a)
  {
    hide Reaches, OnCycle, Good;
    var x :| Obstacle(q, index, d, x);
    ReachFromEdge(index, a, d, x);
    assert Obstacle(q, index, a, x);
  }

  /** A trail that ends with an edge back into itself closes a cycle. */
  lemma TrailClosesCycle(index: ByRef, trail: seq<SpecRef>, a: SpecRef)
    requires IsPath(index, trail) && a in trail && trail[|trail| - 1] in index && a in Edges(index[trail[|trail| - 1]])
    ensures OnCycle(index, a)
  {
    var k :| 0 <= k < |trail| && trail[k] == a;
    var p := trail[k..] + [a];
    forall i | 0 <= i < |p| - 1
      ensures p[i] in index && p[i + 1] in Edges(index[p[i]])
    {
      if k + i < |trail| - 1 {
        assert p[i] == trail[k + i] && p[i + 1] == trail[k + i + 1];
      }
    }
    assert Joins(index, p, a, a);
  }

  // ---- Closed, well-founded sets of versions -------------------------------

  /** A selected version is good, filed under its reference, and leads only to what was selected before it. */
  predicate SettledAt(q: Query, index: ByRef, selected: ByRef, rank: map<SpecRef, nat>, r: SpecRef) {
    && r in selected && r in index && selected[r] == index[r] && Good(q, index, r) && r in rank && rank[r] < |selected|
    && forall d :: d in Edges(index[r]) ==> d in selected && d in rank && rank[d] < rank[r]
  }

  predicate Settled(q: Query, index: ByRef, selected: ByRef, rank: map<SpecRef, nat>) {
    forall r :: r in selected ==> SettledAt(q, index, selected, rank, r)
  }

  lemma {:induction false} PathStaysSettled(q: Query, index: ByRef, selected: ByRef, rank: map<SpecRef, nat>,
                                            p: seq<SpecRef>, i: nat)
    requires Settled(q, index, selected, rank) && IsPath(index, p) && p[0] in selected && i < |p|
    ensures p[i] in selected && p[i] in rank && p[0] in rank && rank[p[i]] <= rank[p[0]] - i
  {
    hide Good;
    if i > 0 {
      PathStaysSettled(q, index, selected, rank, p, i - 1);
      assert p[i - 1] in index && p[(i - 1) + 1] in Edges(index[p[i - 1]]);
    }
  }

  /** Nothing obstructs what is settled, and nothing outside is reachable from it. */
  lemma SettledIsUnblocked(q: Query, index: ByRef, selected: ByRef, rank: map<SpecRef, nat>, a: SpecRef)
    requires Settled(q, index, selected, rank) && a in selected
    ensures !Blocked(q, index, a)
    ensures forall x :: Reaches(index, a, x) ==> x in selected
  {
    hide Good, IsPath;
    forall x | Reaches(index, a, x)
      ensures x in selected && Good(q, index, x) && !OnCycle(index, x)
    {
      var p :| Joins(index, p, a, x);
      NonEmptyPath(index, p);
      PathStaysSettled(q, index, selected, rank, p, |p| - 1);
      SettledHasNoCycle(q, index, selected, rank, x);
    }
  }

  lemma NonEmptyPath(index: ByRef, p: seq<SpecRef>)
    requires IsPath(index, p)
    ensures p != []
  {
  }

  lemma SettledHasNoCycle(q: Query, index: ByRef, selected: ByRef, rank: map<SpecRef, nat>, x: SpecRef)
    requires Settled(q, index, selected, rank) && x in selected
    ensures !OnCycle(index, x)
  {
    hide Settled, IsPath;
    forall p: seq<SpecRef> | |p| >= 2
      ensures !Joins(index, p, x, x)
    {
      if Joins(index, p, x, x) {
        PathStaysSettled(q, index, selected, rank, p, |p| - 1);
      }
    }
  }

  // ---- The outcome is determined -------------------------------------------

  /** The same request, with versions and events stored in another order. */
  ghost predicate SameCatalog(q: Query, q': Query) {
    && multiset(q.versions) == multiset(q'.versions) && multiset(q.events) == multiset(q'.events)
    && q'.tenant == q.tenant && q'.coverage == q.coverage && q'.now == q.now && q'.environment == q.environment
    && q'.hashes == q.hashes
  }

  lemma SameInForce(q: Query, q': Query, s: Spec)
    requires SameCatalog(q, q')
    ensures InForce(q', s) == InForce(q, s)
  {
    hide StateAt;
    StateIgnoresOrder(q.hashes, s, q.events, q'.events, q.now);
  }

  lemma SameVersions(q: Query, q': Query, s: Spec)
    requires SameCatalog(q, q')
    ensures s in q'.versions <==> s in q.versions
  {
    assert s in q.versions <==> s in multiset(q.versions);
    assert s in q'.versions <==> s in multiset(q'.versions);
  }

  lemma SameRoot(q: Query, q': Query, s: Spec)
    requires SameCatalog(q, q')
    ensures IsRoot(q', s) <==> IsRoot(q, s)
  {
    hide InForce;
    SameInForce(q, q', s);
    SameVersions(q, q', s);
  }

  lemma SameIndex(q: Query, q': Query, index: ByRef, index': ByRef)
    requires SameCatalog(q, q') && DistinctReferences(q.versions)
    requires Indexes(index, q.versions) && Indexes(index', q'.versions)
    ensures index' == index
  {
    forall r: SpecRef
      ensures r in index <==> r in index'
      ensures r in index && r in index' ==> index[r] == index'[r]
    {
      if r in index {
        SameVersions(q, q', index[r]);
      }
      if r in index' {
        SameVersions(q, q', index'[r]);
        UniqueIndex(index, q.versions, index'[r]);
      }
    }
  }

  lemma SameObstacles(q: Query, q': Query, index: ByRef, a: SpecRef)
    requires SameCatalog(q, q')
    ensures Blocked(q', index, a) <==> Blocked(q, index, a)
  {
    hide Reaches, OnCycle, InForce;
    forall x: SpecRef
      ensures Good(q', index, x) == Good(q, index, x)
    {
      if x in index {
        SameInForce(q, q', index[x]);
      }
    }
    forall x: SpecRef
      ensures Obstacle(q', index, a, x) == Obstacle(q, index, a, x)
    {
    }
  }

  /** The right outcome does not depend on the order in which the catalog stores its versions and events. */
  lemma OutcomeIgnoresOrder(q: Query, q': Query, c: Selection, c': Selection)
    requires SameCatalog(q, q') && DistinctReferences(q.versions)
    requires Correct(q, IndexOf(q.versions), c) && Correct(q', IndexOf(q'.versions), c')
    ensures c' == c
  {
    hide IsRoot, Blocked, Describes, Reaches, IndexOf, InForce, SharedModule, Indexes;
    IndexOfIndexes(q.versions);
    IndexOfIndexes(q'.versions);
    SameIndex(q, q', IndexOf(q.versions), IndexOf(q'.versions));
    var index := IndexOf(q.versions);
    forall s: Spec
      ensures IsRoot(q', s) == IsRoot(q, s) && AppliedTo(q', s) == AppliedTo(q, s)
      ensures Blocked(q', index, Reference(s)) == Blocked(q, index, Reference(s))
    {
      SameRoot(q, q', s);
      SameInForce(q, q', s);
      SameObstacles(q, q', index, Reference(s));
    }
    assert Roots(q') == Roots(q);
    assert SomeRootBlocked(q', index) == SomeRootBlocked(q, index);
    forall r: SpecRef
      ensures Needed(q', index, r) == Needed(q, index, r)
    {
    }
    assert Closure(q', index) == Closure(q, index);
    if Describes(q, Closure(q, index), c) && Describes(q', Closure(q, index), c') {
      OneDescription(q, q', Closure(q, index), c, c');
    }
  }

  lemma OneDescription(q: Query, q': Query, closure: iset<Spec>, c: Selection, c': Selection)
    requires SameCatalog(q, q') && Describes(q, closure, c) && Describes(q', closure, c')
    ensures c == c'
  {
    hide AppliedTo, StrictlySorted, SameCatalog;
    forall s: Spec
      ensures AppliedTo(q', s) == AppliedTo(q, s)
    {
      SameApplied(q, q', s);
    }
    StrictlySortedIsSet(c.specs, c'.specs, ModuleKey);
    assert c.events == c'.events;
    assert c.decisions == c'.decisions;
  }

  lemma SameApplied(q: Query, q': Query, s: Spec)
    requires SameCatalog(q, q')
    ensures AppliedTo(q', s) == AppliedTo(q, s)
  {
    hide InForce;
    SameInForce(q, q', s);
  }
}
