/** Complete selection: depth-first closure of all applicable policies over the catalog. */
module PolicyClosure {
  import opened Wrappers
  import opened Lifecycle
  import opened Ordering
  import opened PolicyCache
  import opened PolicyGraph

  // ---- Filing a version ----------------------------------------------------

  /** The events filed are those of the versions filed. */
  predicate AppliedSound(q: Query, selected: ByRef, applied: map<nat, seq<LifecycleEvent>>) {
    && (forall r :: r in selected ==> selected[r].specId in applied
                                      && applied[selected[r].specId] == AppliedTo(q, selected[r]))
    && (forall id :: id in applied ==> exists r :: r in selected && selected[r].specId == id)
  }

  lemma SettleOne(q: Query, index: ByRef, selected: ByRef, rank: map<SpecRef, nat>, r: SpecRef)
    requires Settled(q, index, selected, rank) && r !in selected && r in index && Good(q, index, r)
    requires forall d :: d in Edges(index[r]) ==> d in selected
    ensures Settled(q, index, selected[r := index[r]], rank[r := |selected|])
  {
    hide Good, Edges, SettledAt;
    var selected', rank' := selected[r := index[r]], rank[r := |selected|];
    forall x | x in selected'
      ensures SettledAt(q, index, selected', rank', x)
    {
      if x != r {
        StaysSettled(q, index, selected, rank, r, x);
      } else {
        NewlySettled(q, index, selected, rank, r);
      }
    }
  }

  lemma OneMore(selected: ByRef, r: SpecRef, s: Spec)
    requires r !in selected
    ensures |selected[r := s]| == |selected| + 1
  {
    assert selected[r := s].Keys == selected.Keys + {r};
    assert |selected[r := s]| == |selected[r := s].Keys|;
  }

  lemma StaysSettled(q: Query, index: ByRef, selected: ByRef, rank: map<SpecRef, nat>, r: SpecRef, x: SpecRef)
    requires r !in selected && r in index && SettledAt(q, index, selected, rank, x)
    ensures SettledAt(q, index, selected[r := index[r]], rank[r := |selected|], x)
  {
    hide Good, Edges;
    OneMore(selected, r, index[r]);
  }

  lemma NewlySettled(q: Query, index: ByRef, selected: ByRef, rank: map<SpecRef, nat>, r: SpecRef)
    requires Settled(q, index, selected, rank) && r !in selected && Good(q, index, r)
    requires forall d :: d in Edges(index[r]) ==> d in selected
    ensures SettledAt(q, index, selected[r := index[r]], rank[r := |selected|], r)
  {
    hide Edges, InForce, ForEnvironment;
    OneMore(selected, r, index[r]);
  }

  /** Everything filed is in force and filed under its reference. */
  predicate FiledInForce(q: Query, selected: ByRef) {
    forall r :: r in selected ==>
      InForce(q, selected[r]).Ok? && InForce(q, selected[r]).value.Some? && Reference(selected[r]) == r
  }

  lemma ApplyOne(q: Query, selected: ByRef, applied: map<nat, seq<LifecycleEvent>>, spec: Spec)
    requires AppliedSound(q, selected, applied) && Reference(spec) !in selected && FiledInForce(q, selected)
    requires InForce(q, spec).Ok? && InForce(q, spec).value.Some?
    ensures AppliedSound(q, selected[Reference(spec) := spec], applied[spec.specId := AppliedTo(q, spec)])
  {
    hide AppliedTo, InForce;
    var selected', applied' := selected[Reference(spec) := spec], applied[spec.specId := AppliedTo(q, spec)];
    forall r | r in selected && selected[r].specId == spec.specId
      ensures false
    {
      InForceReference(q, selected[r], spec);
    }
    forall id | id in applied'
      ensures exists r :: r in selected' && selected'[r].specId == id
    {
      if id == spec.specId {
        assert Reference(spec) in selected' && selected'[Reference(spec)].specId == id;
      } else {
        var r :| r in selected && selected[r].specId == id;
        assert r in selected' && selected'[r].specId == id;
      }
    }
  }

  /** A version in force is one its events claim to be. */
  lemma InForceClaims(q: Query, s: Spec)
    requires InForce(q, s).Ok? && InForce(q, s).value.Some?
    ensures StageOf(InEffect(Chain(q.events, s.specId), q.now)) == Some(Published)
  {
    hide Chain, InEffect, Linked;
  }

  lemma FirstAppearance(q: Query, k: nat)
    requires Reliable(q) && k < |q.versions|
    ensures q.versions[k] !in q.versions[..k]
  {
    hide AgreeingStates;
  }

  // ---- What stops the search -----------------------------------------------

  lemma BadStart(q: Query, index: ByRef, r: SpecRef)
    requires !Good(q, index, r)
    ensures Blocked(q, index, r)
  {
    hide Good, Reaches, OnCycle;
    PathToItself(index, r);
    assert Obstacle(q, index, r, r);
  }

  lemma BackOnTrail(q: Query, index: ByRef, trail: seq<SpecRef>, r: SpecRef)
    requires trail != [] && IsPath(index, trail) && r in trail
    requires trail[|trail| - 1] in index && r in Edges(index[trail[|trail| - 1]])
    ensures Blocked(q, index, r)
  {
    hide Good, Reaches, OnCycle, Edges, IsPath;
    TrailClosesCycle(index, trail, r);
    PathToItself(index, r);
    assert Obstacle(q, index, r, r);
  }

  lemma LongerTrail(index: ByRef, trail: seq<SpecRef>, r: SpecRef)
    requires trail != [] ==> IsPath(index, trail) && trail[|trail| - 1] in index
    requires trail != [] ==> r in Edges(index[trail[|trail| - 1]])
    ensures IsPath(index, trail + [r])
  {
    hide Edges;
    var p := trail + [r];
    forall i | 0 <= i < |p| - 1
      ensures p[i] in index && p[i + 1] in Edges(index[p[i]])
    {
      if i < |trail| - 1 {
        assert p[i] == trail[i] && p[i + 1] == trail[i + 1];
      }
    }
  }

  /** Some catalog version cannot be trusted, for this reason. */
  predicate Untrusted(q: Query, reason: Rejection) {
    exists s :: s in q.versions && InForce(q, s) == Err(reason)
  }

  // ---- The search ----------------------------------------------------------

  function Filed(order: seq<SpecRef>, selected: ByRef): seq<Spec>
    requires forall r :: r in order ==> r in selected
  {
    seq(|order|, i requires 0 <= i < |order| => selected[order[i]])
  }

  /** How visiting, trail, order and selection fit together, whatever the catalog. */
  ghost predicate Shaped(q: Query, index: ByRef, visiting: set<SpecRef>, trail: seq<SpecRef>, order: seq<SpecRef>,
                   selected: ByRef)
  {
    && Indexes(index, q.versions) && visiting <= index.Keys && visiting !! selected.Keys
    && (forall r :: r in visiting <==> r in trail)
    && (forall r :: r in order <==> r in selected) && Distinct(order)
  }

  /** What the search knows on a reliable catalog. */
  predicate Exact(q: Query, index: ByRef, cache: Cache, selected: ByRef, rank: map<SpecRef, nat>,
                  applied: map<nat, seq<LifecycleEvent>>, trail: seq<SpecRef>)
  {
    && CacheSound(q, cache)
    && Settled(q, index, selected, rank)
    && AppliedSound(q, selected, applied)
    && (trail != [] ==> IsPath(index, trail))
  }

  lemma CheckKeepsExact(q: Query, index: ByRef, cache: Cache, selected: ByRef, rank: map<SpecRef, nat>,
                        applied: map<nat, seq<LifecycleEvent>>, trail: seq<SpecRef>, spec: Spec)
    requires Reliable(q) && Exact(q, index, cache, selected, rank, applied, trail) && spec in q.versions
    ensures Checked(q, cache, spec).0 == InForce(q, spec)
    ensures Exact(q, index, Checked(q, cache, spec).1, selected, rank, applied, trail)
  {
    hide CacheSound, Checked, InForce, Settled, AppliedSound, IsPath, AgreeingStates, DistinctReferences;
    CacheIsExact(q, cache, spec);
  }

  lemma LeavingKeepsShape(q: Query, index: ByRef, visiting: set<SpecRef>, trail: seq<SpecRef>, order: seq<SpecRef>,
                          selected: ByRef, spec: Spec)
    requires Shaped(q, index, visiting, trail + [Reference(spec)], order, selected) && Reference(spec) !in trail
    ensures Shaped(q, index, visiting - {Reference(spec)}, trail, order + [Reference(spec)],
                   selected[Reference(spec) := spec])
  {
    hide Indexes;
    var r := Reference(spec);
    assert forall x :: x in trail + [r] <==> x in trail || x == r;
    assert r in trail + [r] && r in visiting && r !in order;
  }

  lemma LeavingKeepsExact(q: Query, index: ByRef, cache: Cache, selected: ByRef, rank: map<SpecRef, nat>,
                          applied: map<nat, seq<LifecycleEvent>>, trail: seq<SpecRef>, spec: Spec,
                          events: seq<LifecycleEvent>)
    requires Reliable(q) && Indexes(index, q.versions) && spec in q.versions
    requires Exact(q, index, cache, selected, rank, applied, trail + [Reference(spec)])
    requires Reference(spec) in index && index[Reference(spec)] == spec && Reference(spec) !in selected
    requires Good(q, index, Reference(spec)) && InForce(q, spec) == Ok(Some(events))
    requires forall d :: d in Edges(spec) ==> d in selected
    ensures Exact(q, index, cache, selected[Reference(spec) := spec], rank[Reference(spec) := |selected|],
                  applied[spec.specId := events], trail)
  {
    hide CacheSound, Settled, AppliedSound, IsPath, Reliable, Edges, Good, InForce, Indexes;
    SettleOne(q, index, selected, rank, Reference(spec));
    SettledInForce(q, index, selected, rank);
    ApplyOne(q, selected, applied, spec);
    AppliedIs(q, spec, events);
    ShorterTrail(index, trail, Reference(spec));
  }

  class Search {
    const q: Query
    const index: ByRef
    var stateCache: Cache
    var visiting: set<SpecRef>
    var selected: ByRef
    /** The keys of `selected` in insertion order. */
    var order: seq<SpecRef>
    var applied: map<nat, seq<LifecycleEvent>>
    ghost var trail: seq<SpecRef>
    ghost var rank: map<SpecRef, nat>

    constructor (q: Query)
      ensures this.q == q && index == IndexOf(q.versions)
      ensures stateCache == map[] && visiting == {} && selected == map[] && order == []
      ensures applied == map[] && trail == []
      ensures Shape() && Sound()
    {
      this.q := q;
      index := IndexOf(q.versions);
      stateCache, visiting, selected, order, applied := map[], {}, map[], [], map[];
      trail, rank := [], map[];
      new;
      IndexOfIndexes(q.versions);
    }

    ghost predicate Shape()
      reads this
    {
      Shaped(q, index, visiting, trail, order, selected)
    }

    ghost predicate Sound()
      reads this
    {
      Reliable(q) ==> Exact(q, index, stateCache, selected, rank, applied, trail)
    }

    method Validate(spec: Spec) returns (r: Result<Option<seq<LifecycleEvent>>, Rejection>)
      modifies this`stateCache
      ensures (r, stateCache) == Checked(q, old(stateCache), spec)
    {
      if q.hashes.content(spec.(contentHash := "")) != spec.contentHash {
        return Err(PolicyHashInvalid(spec.specId));
      }
      if q.hashes.semantic(Unhashed(spec)) != spec.semanticHash {
        return Err(PolicyHashInvalid(spec.specId));
      }
      if spec.specId !in stateCache {
        var state := CheckState(q.hashes, spec, q.events, q.now);
        if state.Err? {
          return Err(state.error);
        }
        stateCache := stateCache[spec.specId := state.value];
      }
      var standing := stateCache[spec.specId];
      assert stateCache == stateCache[spec.specId := standing];
      if standing.stage != Some(Published) || !InWindow(spec, q.now) {
        return Ok(None);
      }
      r := Ok(Some(standing.applied));
    }

    /** Validates one catalog version; on a reliable catalog the answer is its own. */
    method ValidateExactly(spec: Spec) returns (r: Result<Option<seq<LifecycleEvent>>, Rejection>)
      requires Shape() && Sound() && spec in q.versions
      modifies this`stateCache
      ensures Shape() && Sound()
      ensures Reliable(q) ==> r == InForce(q, spec)
      ensures (r, stateCache) == Checked(q, old(stateCache), spec)
    {
      hide Checked, InForce, Shaped, Exact, Reliable;
      ghost var cache := stateCache;
      r := Validate(spec);
      if Reliable(q) {
        CheckKeepsExact(q, index, cache, selected, rank, applied, trail, spec);
      }
    }

    /** The applicable versions in catalog order. */
    method FindRoots() returns (r: Result<seq<Spec>, Rejection>)
      requires Shape() && Sound()
      modifies this`stateCache
      ensures Shape() && Sound()
      ensures r.Ok? ==> forall s :: s in r.value ==> s in q.versions
      ensures Reliable(q) && r.Ok? ==> Distinct(r.value) && AreRoots(q, r.value)
      ensures Reliable(q) && r.Err? ==> Untrusted(q, r.error)
      ensures (r, stateCache) == RootsFrom(q, q.versions, old(stateCache))
    {
      hide Shape, Sound, InForce, Concerned, Reliable, Chain, InEffect, Checked;
      var roots: seq<Spec> := [];
      for k := 0 to |q.versions|
        invariant Shape() && Sound()
        invariant forall s :: s in roots ==> s in q.versions[..k]
        invariant RootsFrom(q, q.versions[..k], old(stateCache)) == (Ok(roots), stateCache)
        invariant Reliable(q) ==> Distinct(roots)
        invariant Reliable(q) ==> forall s :: s in roots <==> s in q.versions[..k] && IsRoot(q, s)
      {
        var spec := q.versions[k];
        assert q.versions[..k + 1] == q.versions[..k] + [spec] && q.versions[..k + 1][..k] == q.versions[..k];
        if Reliable(q) {
          FirstAppearance(q, k);
          if IsRoot(q, spec) {
            InForceClaims(q, spec);
          }
        }
        if Concerned(q, spec) {
          var claims := ClaimsEffectivePublished(q.events, spec.specId, q.now);
          if claims {
            var checked := ValidateExactly(spec);
            if checked.Err? {
              FirstRejected(q, q.versions, k + 1, old(stateCache));
              return Err(checked.error);
            }
            if checked.value.Some? {
              roots := roots + [spec];
            }
          }
        }
      }
      assert q.versions[..|q.versions|] == q.versions;
      r := Ok(roots);
    }

    /** Where this version may be entered: it is in the catalog, and the last version on the trail leads to it. */
    ghost predicate Enterable(spec: Spec)
      reads this
    {
      && Shape() && Sound() && spec in q.versions && Reference(spec) in index
      && (Reliable(q) ==> index[Reference(spec)] == spec && spec.tenant == q.tenant)
      && (Reliable(q) && trail != []
          ==> trail[|trail| - 1] in index && Reference(spec) in Edges(index[trail[|trail| - 1]]))
    }

    /** Puts a version on the trail. */
    method Enter(spec: Spec)
      requires Enterable(spec) && Reference(spec) !in visiting && Reference(spec) !in selected
      modifies this`visiting, this`trail
      ensures Shape() && Sound()
      ensures visiting == old(visiting) + {Reference(spec)} && trail == old(trail) + [Reference(spec)]
      ensures Reference(spec) !in old(trail)
    {
      hide CacheSound, Settled, AppliedSound, IsPath, Reliable, Edges;
      if Reliable(q) {
        LongerTrail(index, trail, Reference(spec));
      }
      visiting := visiting + {Reference(spec)};
      trail := trail + [Reference(spec)];
    }

    /** Files a version whose dependencies are all filed, and takes it off the trail. */
    method Leave(spec: Spec, events: seq<LifecycleEvent>)
      requires Shape() && Sound() && spec in q.versions && Reference(spec) in index
      requires trail != [] && trail[|trail| - 1] == Reference(spec) && Reference(spec) !in trail[..|trail| - 1]
      requires Reliable(q)
               ==> index[Reference(spec)] == spec && Good(q, index, Reference(spec))
                   && InForce(q, spec) == Ok(Some(events))
      requires forall d :: d in Edges(spec) ==> d in selected
      modifies this`visiting, this`trail, this`selected, this`order, this`applied, this`rank
      ensures Shape() && Sound()
      ensures visiting == old(visiting) - {Reference(spec)} && trail == old(trail[..|trail| - 1])
      ensures selected == old(selected)[Reference(spec) := spec]
    {
      hide Shaped, Exact, Reliable, Edges, Good, InForce;
      var ref := Reference(spec);
      ghost var shorter := trail[..|trail| - 1];
      assert trail == shorter + [ref];
      OnTrailUnselected(q, index, visiting, trail, order, selected, ref);
      LeavingKeepsShape(q, index, visiting, shorter, order, selected, spec);
      if Reliable(q) {
        assert Indexes(index, q.versions) by { ShapeIndexes(q, index, visiting, trail, order, selected); }
        LeavingKeepsExact(q, index, stateCache, selected, rank, applied, shorter, spec, events);
      }
      visiting := visiting - {ref};
      rank := rank[ref := |selected|];
      selected := selected[ref := spec];
      order := order + [ref];
      applied := applied[spec.specId := events];
      trail := shorter;
    }

    /** Adds a version and everything it leads to, or finds out why not. */
    method AddClosure(spec: Spec) returns (r: Result<bool, Rejection>)
      requires Enterable(spec)
      modifies this
      ensures r == Ok(true)
              ==> && Shape() && Sound() && visiting == old(visiting) && trail == old(trail)
                  && Grown(old(selected), Reference(spec))
      ensures r == Ok(false) && Reliable(q) ==> Blocked(q, index, Reference(spec))
      ensures r.Err? && Reliable(q) ==> Untrusted(q, r.error)
      decreases index.Keys - visiting, 0
    {
      hide Shaped, Exact, Reliable, Edges, Good, InForce, Blocked, Indexes, ForEnvironment, Reaches, IsPath;
      var ref := Reference(spec);
      if ref in visiting {
        StoppedByTrail(spec);
        return Ok(false);
      }
      if ref in selected {
        PathToItself(index, ref);
        return Ok(true);
      }
      if !ForEnvironment(q, spec) {
        if Reliable(q) {
          NotGood(q, index, spec);
          BadStart(q, index, ref);
        }
        return Ok(false);
      }
      Enter(spec);
      var checked := ValidateExactly(spec);
      if checked.Err? {
        return Err(checked.error);
      }
      if checked.value.None? {
        if Reliable(q) {
          NotGood(q, index, spec);
          BadStart(q, index, ref);
        }
        return Ok(false);
      }
      assert (old(trail) + [ref])[..|old(trail)|] == old(trail);
      r := AddEdges(spec, checked.value.value);
      assert old(visiting) + {ref} - {ref} == old(visiting);
    }

    /** The dependencies and overlays of a version that has been entered and checked, then the version itself. */
    method AddEdges(spec: Spec, events: seq<LifecycleEvent>) returns (r: Result<bool, Rejection>)
      requires Shape() && Sound() && spec in q.versions && Reference(spec) in index
      requires trail != [] && trail[|trail| - 1] == Reference(spec) && Reference(spec) !in trail[..|trail| - 1]
      requires Reliable(q)
               ==> index[Reference(spec)] == spec && spec.tenant == q.tenant && ForEnvironment(q, spec)
                   && InForce(q, spec) == Ok(Some(events))
      modifies this
      ensures r == Ok(true)
              ==> && Shape() && Sound() && visiting == old(visiting) - {Reference(spec)}
                  && trail == old(trail[..|trail| - 1]) && Grown(old(selected), Reference(spec))
      ensures r == Ok(false) && Reliable(q) ==> Blocked(q, index, Reference(spec))
      ensures r.Err? && Reliable(q) ==> Untrusted(q, r.error)
      decreases index.Keys - visiting, 1
    {
      hide Shaped, Exact, Reliable, Edges, Good, InForce, Blocked, Indexes, ForEnvironment, Reaches, IsPath;
      var ref := Reference(spec);
      var edges := Edges(spec);
      PathToItself(index, ref);
      for k := 0 to |edges|
        invariant Shape() && Sound() && visiting == old(visiting) && trail == old(trail)
        invariant forall j :: 0 <= j < k ==> edges[j] in selected
        invariant forall x :: x in old(selected) ==> x in selected
        invariant Reliable(q) ==> forall x :: x in selected ==> x in old(selected) || Reaches(index, ref, x)
      {
        var d := edges[k];
        assert d in edges;
        if d !in index || index[d].tenant != q.tenant {
          if Reliable(q) {
            ForeignEdge(q, index, ref, d);
          }
          return Ok(false);
        }
        ghost var before := selected;
        DependencyEnterable(spec, d);
        r := AddClosure(index[d]);
        if r.Err? {
          return;
        }
        if !r.value {
          if Reliable(q) {
            BlockedFromEdge(q, index, ref, d);
          }
          return;
        }
        if Reliable(q) {
          GrownFromEdge(q, index, ref, d, old(selected), before, selected);
        }
      }
      if Reliable(q) {
        ReallyGood(q, index, spec);
      }
      Leave(spec, events);
      r := Ok(true);
    }

    lemma StoppedByTrail(spec: Spec)
      requires Enterable(spec) && Reference(spec) in visiting
      ensures Reliable(q) ==> Blocked(q, index, Reference(spec))
    {
      hide Blocked, CacheSound, Settled, AppliedSound, IsPath, Reliable, Edges, Indexes;
      if Reliable(q) {
        assert Reference(spec) in trail;
        BackOnTrail(q, index, trail, Reference(spec));
      }
    }

    lemma DependencyEnterable(spec: Spec, d: SpecRef)
      requires Shape() && Sound() && d in Edges(spec) && d in index && Reference(spec) in index
      requires index[d].tenant == q.tenant
      requires trail != [] && trail[|trail| - 1] == Reference(spec)
      requires Reliable(q) ==> index[Reference(spec)] == spec
      ensures Reference(index[d]) == d && Enterable(index[d])
    {
      hide Exact, Reliable, Edges;
      if Reliable(q) {
        ReliableIndex(q, index, index[d]);
      }
    }

    /** The version and everything new is reachable from the reference, and nothing is lost. */
    ghost predicate Grown(before: ByRef, ref: SpecRef)
      reads this
    {
      && ref in selected
      && (forall x :: x in before ==> x in selected)
      && (Reliable(q) ==> forall x :: x in selected ==> x in before || Reaches(index, ref, x))
    }

    /** Nothing selected yet, and these are the roots. */
    ghost predicate Ready(roots: seq<Spec>)
      reads this
    {
      && Shape() && Sound() && trail == [] && visiting == {} && selected == map[]
      && (forall s :: s in roots ==> s in q.versions) && (Reliable(q) ==> AreRoots(q, roots))
    }

    /** All roots are selected, and nothing that none of them needs. */
    ghost predicate Closed(roots: seq<Spec>)
      reads this
    {
      Shape() && Sound() && AllFiled(roots, selected) && (Reliable(q) ==> AllNeeded(q, index, selected))
    }

    /** Adds the closure of every root, stopping at the first that fails. */
    method AddRoots(roots: seq<Spec>) returns (r: Result<bool, Rejection>)
      requires Ready(roots)
      modifies this
      ensures r == Ok(true) ==> Closed(roots)
      ensures r == Ok(false) && Reliable(q) ==> SomeRootBlocked(q, index)
      ensures r.Err? && Reliable(q) ==> Untrusted(q, r.error)
    {
      hide Shaped, Exact, Reliable, InForce, Blocked, Indexes, Reaches, IsRoot;
      for k := 0 to |roots|
        invariant Shape() && Sound() && visiting == {} && trail == []
        invariant forall j :: 0 <= j < k ==> Reference(roots[j]) in selected
        invariant Reliable(q) ==> AllNeeded(q, index, selected)
      {
        var spec := roots[k];
        assert spec in roots;
        RootEnterable(spec);
        r := AddClosure(spec);
        if r.Err? || !r.value {
          return;
        }
      }
      r := Ok(true);
    }

    lemma RootEnterable(spec: Spec)
      requires Shape() && Sound() && trail == [] && spec in q.versions && (Reliable(q) ==> IsRoot(q, spec))
      ensures Enterable(spec)
    {
      hide Exact, Reliable, InForce;
      if Reliable(q) {
        ReliableIndex(q, index, spec);
      }
    }

    /** The filed versions are the closure, each once. */
    ghost predicate FiledExactly()
      reads this
    {
      && (forall r :: r in order <==> r in selected)
      && Distinct(Filed(order, selected))
      && forall s :: s in Filed(order, selected) <==> s in Closure(q, index)
    }

    lemma SelectionIsClosure(roots: seq<Spec>)
      requires Closed(roots) && Reliable(q) && AreRoots(q, roots)
      ensures FiledExactly() && !SomeRootBlocked(q, index)
    {
      hide Settled, AppliedSound, CacheSound, IsPath, IsRoot, Needed, Closure, Reliable, Filed, Indexes;
      hide SomeRootBlocked;
      hide AreRoots, AllFiled, AllNeeded;
      FiledDistinct(q, index, order, selected, rank);
      NoRootBlocked(q, index, selected, rank, roots);
      forall s: Spec
        ensures s in Filed(order, selected) <==> s in Closure(q, index)
      {
        FiledIsClosure(q, index, order, selected, rank, roots, s);
      }
    }

    lemma SelectionIsDescribed(c: Selection)
      requires Shape() && Sound() && Reliable(q) && FiledExactly()
      requires !SomePair(Filed(order, selected))
      requires c == Complete(SortBy(Filed(order, selected), ModuleKey), EventsOf(applied), DecisionsOf(applied))
      ensures Describes(q, Closure(q, index), c)
    {
      hide Settled, AppliedSound, CacheSound, IsPath, Closure, Reliable, Filed, Shaped, AppliedTo, SortBy, SomePair;
      hide StrictlySorted, EventsOf, DecisionsOf;
      SortedByModule(Filed(order, selected));
      SortByMembers(Filed(order, selected), ModuleKey);
      forall x: ObjectRef
        ensures x in EventsOf(applied)
                <==> exists s, e :: s in Closure(q, index) && e in AppliedTo(q, s) && x == EventReference(e)
        ensures x in DecisionsOf(applied)
                <==> exists s, e :: s in Closure(q, index) && e in AppliedTo(q, s) && x in e.acceptedDecisions
      {
        AppliedReferences(q, index, order, selected, applied, x);
      }
    }

    /** The whole selection. */
    method Run() returns (r: Result<Selection, Rejection>)
      requires Shape() && Sound() && trail == [] && visiting == {} && selected == map[]
      modifies this
      ensures Reliable(q) && r.Ok? ==> Correct(q, index, r.value)
      ensures Reliable(q) && r.Err? ==> Untrusted(q, r.error)
      ensures var roots := RootsFrom(q, q.versions, old(stateCache)).0;
              roots.Ok? && SomePair(roots.value) ==> r == Ok(Ambiguous)
    {
      hide Shaped, Exact, Reliable, InForce, Blocked, Indexes, Reaches, IsRoot, Closure, Needed, Describes, RootsFrom;
      var found := FindRoots();
      if found.Err? {
        return Err(found.error);
      }
      var roots := found.value;
      if roots == [] {
        return Ok(NoSafePolicy);
      }
      assert roots[0] in roots;
      var shared := SharesModule(roots);
      if Reliable(q) {
        SharedInList(roots, Roots(q));
      }
      if shared {
        return Ok(Ambiguous);
      }
      var closed := AddRoots(roots);
      if closed.Err? {
        return Err(closed.error);
      }
      if !closed.value {
        return Ok(NoSafePolicy);
      }
      OrderIsSelected(q, index, visiting, trail, order, selected);
      var specs := Filed(order, selected);
      if Reliable(q) {
        SelectionIsClosure(roots);
        SharedInList(specs, Closure(q, index));
      }
      shared := SharesModule(specs);
      if shared {
        return Ok(Ambiguous);
      }
      var c := Complete(SortBy(specs, ModuleKey), EventsOf(applied), DecisionsOf(applied));
      if Reliable(q) {
        SelectionIsDescribed(c);
      }
      r := Ok(c);
    }
  }

  /** Groups versions by module and looks for a group of more than one. */
  method SharesModule(specs: seq<Spec>) returns (shared: bool)
    ensures shared <==> SomePair(specs)
  {
    var grouped: Groups := map[];
    for k := 0 to |specs|
      invariant Grouped(grouped, specs[..k])
    {
      assert specs[..k + 1] == specs[..k] + [specs[k]];
      GroupOneMore(grouped, specs[..k], specs[k]);
      grouped := AddToGroup(grouped, specs[k]);
    }
    assert specs[..|specs|] == specs;
    shared := exists m :: m in grouped && |grouped[m]| > 1;
  }

  type Groups = map<string, seq<Spec>>

  function AddToGroup(grouped: Groups, s: Spec): Groups {
    grouped[s.moduleKey := (if s.moduleKey in grouped then grouped[s.moduleKey] else []) + [s]]
  }

  predicate Crowded(grouped: Groups) {
    exists m :: m in grouped && |grouped[m]| > 1
  }

  /** There is a group for each module in the list, none is empty, and one is crowded exactly if a module repeats. */
  predicate Grouped(grouped: Groups, specs: seq<Spec>) {
    && (forall i :: 0 <= i < |specs| ==> specs[i].moduleKey in grouped)
    && (forall m :: m in grouped ==> grouped[m] != [] && exists i :: 0 <= i < |specs| && specs[i].moduleKey == m)
    && (Crowded(grouped) <==> SomePair(specs))
  }

  lemma GroupOneMore(grouped: Groups, specs: seq<Spec>, s: Spec)
    requires Grouped(grouped, specs)
    ensures Grouped(AddToGroup(grouped, s), specs + [s])
  {
    hide SomePair;
    var grouped', specs' := AddToGroup(grouped, s), specs + [s];
    assert specs'[..|specs|] == specs && specs'[..|specs| + 1] == specs';
    PairsNext(specs', |specs|);
    assert forall i :: 0 <= i < |specs| ==> specs'[i] == specs[i];
    assert Crowded(grouped') <==> Crowded(grouped) || s.moduleKey in grouped by {
      if Crowded(grouped) {
        var m :| m in grouped && |grouped[m]| > 1;
        assert m in grouped' && |grouped'[m]| > 1;
      }
      if s.moduleKey in grouped {
        assert s.moduleKey in grouped' && |grouped'[s.moduleKey]| > 1;
      }
    }
    forall m | m in grouped'
      ensures grouped'[m] != [] && exists i :: 0 <= i < |specs'| && specs'[i].moduleKey == m
    {
      if m == s.moduleKey {
        assert specs'[|specs|].moduleKey == m;
      } else {
        var i :| 0 <= i < |specs| && specs[i].moduleKey == m;
        assert specs'[i].moduleKey == m;
      }
    }
  }

  /** Two places in the list hold versions of one module. */
  predicate SomePair(specs: seq<Spec>) {
    exists i, j :: 0 <= i < j < |specs| && specs[i].moduleKey == specs[j].moduleKey
  }

  lemma PairsNext(specs: seq<Spec>, k: nat)
    requires k < |specs|
    ensures SomePair(specs[..k + 1])
            <==> SomePair(specs[..k]) || exists i :: 0 <= i < k && specs[i].moduleKey == specs[k].moduleKey
  {
    var a, b := specs[..k], specs[..k + 1];
    assert b[k] == specs[k] && forall i :: 0 <= i < k ==> a[i] == specs[i] == b[i];
    if SomePair(a) {
      var i, j :| 0 <= i < j < |a| && a[i].moduleKey == a[j].moduleKey;
      assert b[i].moduleKey == b[j].moduleKey;
    }
    if i :| 0 <= i < k && specs[i].moduleKey == specs[k].moduleKey {
      assert b[i].moduleKey == b[k].moduleKey;
    }
    if SomePair(b) {
      var i, j :| 0 <= i < j < |b| && b[i].moduleKey == b[j].moduleKey;
      if j < k {
        assert a[i].moduleKey == a[j].moduleKey;
      }
    }
  }

  /** For a list without repetitions, a pair of places is a pair of versions. */
  lemma SharedInList(specs: seq<Spec>, all: iset<Spec>)
    requires Distinct(specs) && forall s :: s in specs <==> s in all
    ensures SomePair(specs) <==> SharedModule(all)
  {
    if SomePair(specs) {
      var i, j :| 0 <= i < j < |specs| && specs[i].moduleKey == specs[j].moduleKey;
      assert specs[i] in specs && specs[j] in specs;
    }
    if SharedModule(all) {
      var a, b :| a in all && b in all && a != b && a.moduleKey == b.moduleKey;
      var i :| 0 <= i < |specs| && specs[i] == a;
      var j :| 0 <= j < |specs| && specs[j] == b;
      assert specs[if i < j then i else j].moduleKey == specs[if i < j then j else i].moduleKey;
    }
  }

  lemma OrderIsSelected(q: Query, index: ByRef, visiting: set<SpecRef>, trail: seq<SpecRef>, order: seq<SpecRef>,
                        selected: ByRef)
    requires Shaped(q, index, visiting, trail, order, selected)
    ensures Distinct(order) && forall r :: r in order <==> r in selected
  {
  }

  lemma FiledMembers(order: seq<SpecRef>, selected: ByRef, s: Spec)
    requires forall r :: r in order <==> r in selected
    ensures s in Filed(order, selected) <==> exists r :: r in selected && selected[r] == s
  {
    var specs := Filed(order, selected);
    if s in specs {
      var i :| 0 <= i < |specs| && specs[i] == s;
      assert order[i] in order;
    }
    if r :| r in selected && selected[r] == s {
      assert r in order;
      var i :| 0 <= i < |order| && order[i] == r;
      assert specs[i] == s;
    }
  }

  lemma FiledDistinct(q: Query, index: ByRef, order: seq<SpecRef>, selected: ByRef, rank: map<SpecRef, nat>)
    requires Indexes(index, q.versions) && Settled(q, index, selected, rank)
    requires Distinct(order) && forall r :: r in order <==> r in selected
    ensures Distinct(Filed(order, selected))
  {
    hide Good, Edges;
    var specs := Filed(order, selected);
    forall i, j | 0 <= i < j < |specs|
      ensures specs[i] != specs[j]
    {
      assert order[i] in order && order[j] in order;
      assert SettledAt(q, index, selected, rank, order[i]) && SettledAt(q, index, selected, rank, order[j]);
      assert Reference(specs[i]) == order[i] && Reference(specs[j]) == order[j];
    }
  }

  ghost predicate AreRoots(q: Query, roots: seq<Spec>) {
    forall s :: s in roots <==> IsRoot(q, s)
  }

  predicate AllFiled(roots: seq<Spec>, selected: ByRef) {
    forall s :: s in roots ==> Reference(s) in selected
  }

  ghost predicate AllNeeded(q: Query, index: ByRef, selected: ByRef) {
    forall r :: r in selected ==> Needed(q, index, r)
  }

  lemma NeededIsFiled(q: Query, index: ByRef, selected: ByRef, rank: map<SpecRef, nat>, roots: seq<Spec>, r: SpecRef)
    requires Settled(q, index, selected, rank) && AreRoots(q, roots) && AllFiled(roots, selected)
    requires Needed(q, index, r)
    ensures r in selected
  {
    hide Settled, IsRoot, Reaches;
    var root :| IsRoot(q, root) && Reaches(index, Reference(root), r);
    assert root in roots;
    SettledIsUnblocked(q, index, selected, rank, Reference(root));
  }

  lemma FiledAsIndexed(q: Query, index: ByRef, selected: ByRef, rank: map<SpecRef, nat>, r: SpecRef)
    requires Settled(q, index, selected, rank) && r in selected
    ensures r in index && selected[r] == index[r]
  {
    hide Good, Edges;
    assert SettledAt(q, index, selected, rank, r);
  }

  /** Roots all filed and nothing filed without need: the selection is the closure. */
  lemma FiledIsClosure(q: Query, index: ByRef, order: seq<SpecRef>, selected: ByRef, rank: map<SpecRef, nat>,
                       roots: seq<Spec>, s: Spec)
    requires Settled(q, index, selected, rank) && forall r :: r in order <==> r in selected
    requires AreRoots(q, roots) && AllFiled(roots, selected) && AllNeeded(q, index, selected)
    ensures s in Filed(order, selected) <==> s in Closure(q, index)
  {
    hide Settled, AreRoots, AllFiled, Needed, Filed;
    FiledMembers(order, selected, s);
    if r :| r in selected && selected[r] == s {
      FiledAsIndexed(q, index, selected, rank, r);
    }
    if s in Closure(q, index) {
      var r :| r in index && Needed(q, index, r) && index[r] == s;
      NeededIsFiled(q, index, selected, rank, roots, r);
      FiledAsIndexed(q, index, selected, rank, r);
    }
  }

  lemma NoRootBlocked(q: Query, index: ByRef, selected: ByRef, rank: map<SpecRef, nat>, roots: seq<Spec>)
    requires Settled(q, index, selected, rank) && AreRoots(q, roots) && AllFiled(roots, selected)
    ensures !SomeRootBlocked(q, index)
  {
    hide Settled, IsRoot, Blocked;
    forall root | IsRoot(q, root)
      ensures !Blocked(q, index, Reference(root))
    {
      assert root in roots;
      SettledIsUnblocked(q, index, selected, rank, Reference(root));
    }
  }

  // ---- The answer ----------------------------------------------------------

  lemma SortedByModule(specs: seq<Spec>)
    requires !SomePair(specs)
    ensures StrictlySorted(SortBy(specs, ModuleKey), ModuleKey)
  {
    var sorted := SortBy(specs, ModuleKey);
    SortBySorted(specs, ModuleKey);
    SortBySame(specs, ModuleKey);
    forall i, j | 0 <= i < j < |sorted|
      ensures Less(ModuleKey(sorted[i]), ModuleKey(sorted[j]))
    {
      LessTotal(ModuleKey(sorted[i]), ModuleKey(sorted[j]));
      if ModuleKey(sorted[i]) == ModuleKey(sorted[j]) {
        PairSurvives(sorted, specs, i, j);
      }
    }
  }

  /** A pair in a list is a pair in every rearrangement of it. */
  lemma PairSurvives(a: seq<Spec>, b: seq<Spec>, i: nat, j: nat)
    requires multiset(a) == multiset(b) && i < j < |a| && a[i].moduleKey == a[j].moduleKey
    ensures SomePair(b)
  {
    assert a[i] in multiset(b) && a[j] in multiset(b);
    if a[i] != a[j] {
      var m :| 0 <= m < |b| && b[m] == a[i];
      var n :| 0 <= n < |b| && b[n] == a[j];
      assert b[if m < n then m else n].moduleKey == b[if m < n then n else m].moduleKey;
    } else {
      Twice(a, i, j);
      TwoPlaces(b, a[i]);
    }
  }

  lemma Twice(a: seq<Spec>, i: nat, j: nat)
    requires i < j < |a| && a[i] == a[j]
    ensures multiset(a)[a[i]] >= 2
  {
    var head, tail := a[..i + 1], a[i + 1..];
    assert a == head + tail;
    assert head[i] in multiset(head) && tail[j - i - 1] in multiset(tail);
  }

  lemma {:induction false} TwoPlaces(b: seq<Spec>, s: Spec)
    requires multiset(b)[s] >= 2
    ensures SomePair(b)
  {
    assert b == [b[0]] + b[1..];
    if b[0] == s {
      assert s in multiset(b[1..]);
      var k :| 0 <= k < |b[1..]| && b[1..][k] == s;
      assert b[0].moduleKey == b[k + 1].moduleKey;
    } else {
      TwoPlaces(b[1..], s);
      var i, j :| 0 <= i < j < |b[1..]| && b[1..][i].moduleKey == b[1..][j].moduleKey;
      assert b[i + 1].moduleKey == b[j + 1].moduleKey;
    }
  }

  function EventsOf(applied: map<nat, seq<LifecycleEvent>>): set<ObjectRef> {
    set id, e | id in applied && e in applied[id] :: EventReference(e)
  }

  function DecisionsOf(applied: map<nat, seq<LifecycleEvent>>): set<ObjectRef> {
    set id, e, x | id in applied && e in applied[id] && x in e.acceptedDecisions :: x
  }

  predicate FromApplied(applied: map<nat, seq<LifecycleEvent>>, e: LifecycleEvent) {
    exists id :: id in applied && e in applied[id]
  }

  lemma AppliedMembers(q: Query, index: ByRef, order: seq<SpecRef>, selected: ByRef,
                       applied: map<nat, seq<LifecycleEvent>>, e: LifecycleEvent)
    requires AppliedSound(q, selected, applied) && (forall r :: r in order <==> r in selected)
    requires forall s :: s in Filed(order, selected) <==> s in Closure(q, index)
    ensures FromApplied(applied, e) <==> exists s :: s in Closure(q, index) && e in AppliedTo(q, s)
  {
    hide AppliedTo, Closure;
    if FromApplied(applied, e) {
      var id :| id in applied && e in applied[id];
      var r :| r in selected && selected[r].specId == id;
      FiledMembers(order, selected, selected[r]);
      assert selected[r] in Closure(q, index) && e in AppliedTo(q, selected[r]);
    }
    if s :| s in Closure(q, index) && e in AppliedTo(q, s) {
      FiledMembers(order, selected, s);
      var r :| r in selected && selected[r] == s;
      assert s.specId in applied && e in applied[s.specId];
    }
  }

  lemma AppliedReferences(q: Query, index: ByRef, order: seq<SpecRef>, selected: ByRef,
                          applied: map<nat, seq<LifecycleEvent>>, x: ObjectRef)
    requires AppliedSound(q, selected, applied) && (forall r :: r in order <==> r in selected)
    requires forall s :: s in Filed(order, selected) <==> s in Closure(q, index)
    ensures x in EventsOf(applied)
            <==> exists s, e :: s in Closure(q, index) && e in AppliedTo(q, s) && x == EventReference(e)
    ensures x in DecisionsOf(applied)
            <==> exists s, e :: s in Closure(q, index) && e in AppliedTo(q, s) && x in e.acceptedDecisions
  {
    hide AppliedTo, Closure, Filed, AppliedSound;
    forall e: LifecycleEvent
      ensures FromApplied(applied, e) <==> exists s :: s in Closure(q, index) && e in AppliedTo(q, s)
    {
      AppliedMembers(q, index, order, selected, applied, e);
    }
    assert x in EventsOf(applied) <==> exists e :: FromApplied(applied, e) && x == EventReference(e);
    assert x in DecisionsOf(applied) <==> exists e :: FromApplied(applied, e) && x in e.acceptedDecisions;
  }

  lemma NotGood(q: Query, index: ByRef, spec: Spec)
    requires Reference(spec) in index && index[Reference(spec)] == spec
    requires !ForEnvironment(q, spec) || InForce(q, spec) == Ok(None)
    ensures !Good(q, index, Reference(spec))
  {
    hide InForce, ForEnvironment;
  }

  lemma ReallyGood(q: Query, index: ByRef, spec: Spec)
    requires Reference(spec) in index && index[Reference(spec)] == spec
    requires spec.tenant == q.tenant && ForEnvironment(q, spec) && InForce(q, spec).Ok? && InForce(q, spec).value.Some?
    ensures Good(q, index, Reference(spec))
  {
    hide InForce, ForEnvironment;
  }

  lemma ForeignEdge(q: Query, index: ByRef, r: SpecRef, d: SpecRef)
    requires r in index && d in Edges(index[r]) && (d !in index || index[d].tenant != q.tenant)
    ensures Blocked(q, index, r)
  {
    hide Blocked, Edges;
    BadStart(q, index, d);
    BlockedFromEdge(q, index, r, d);
  }

  lemma GrownFromEdge(q: Query, index: ByRef, r: SpecRef, d: SpecRef, first: ByRef, before: ByRef, after: ByRef)
    requires r in index && d in Edges(index[r])
    requires forall x :: x in before ==> x in first || Reaches(index, r, x)
    requires forall x :: x in after ==> x in before || Reaches(index, d, x)
    ensures forall x :: x in after ==> x in first || Reaches(index, r, x)
  {
    hide Reaches, Edges;
    forall x | x in after && x !in before
      ensures Reaches(index, r, x)
    {
      ReachFromEdge(index, r, d, x);
    }
  }

  lemma OnTrailUnselected(q: Query, index: ByRef, visiting: set<SpecRef>, trail: seq<SpecRef>, order: seq<SpecRef>,
                          selected: ByRef, r: SpecRef)
    requires Shaped(q, index, visiting, trail, order, selected) && r in trail
    ensures r !in selected
  {
  }

  lemma ShapeIndexes(q: Query, index: ByRef, visiting: set<SpecRef>, trail: seq<SpecRef>, order: seq<SpecRef>,
                     selected: ByRef)
    requires Shaped(q, index, visiting, trail, order, selected)
    ensures Indexes(index, q.versions) && visiting <= index.Keys
  {
  }

  lemma ShorterTrail(index: ByRef, trail: seq<SpecRef>, r: SpecRef)
    requires IsPath(index, trail + [r])
    ensures trail != [] ==> IsPath(index, trail)
  {
    var longer := trail + [r];
    forall i | 0 <= i < |trail| - 1
      ensures trail[i] in index && trail[i + 1] in Edges(index[trail[i]])
    {
      assert longer[i] == trail[i] && longer[i + 1] == trail[i + 1];
    }
  }

  lemma AppliedIs(q: Query, s: Spec, events: seq<LifecycleEvent>)
    requires InForce(q, s) == Ok(Some(events))
    ensures AppliedTo(q, s) == events
  {
    hide InForce;
  }

  lemma SettledInForce(q: Query, index: ByRef, selected: ByRef, rank: map<SpecRef, nat>)
    requires Settled(q, index, selected, rank) && Indexes(index, q.versions)
    ensures FiledInForce(q, selected)
  {
    hide Edges, InForce, ForEnvironment;
    forall r | r in selected
      ensures InForce(q, selected[r]).Ok? && InForce(q, selected[r]).value.Some? && Reference(selected[r]) == r
    {
      assert SettledAt(q, index, selected, rank, r);
    }
  }

  // ---- The method as its callers see it ------------------------------------

  /** Always ends. On a reliable catalog it gives the one right outcome, or names a version whose hashes or
      events cannot be trusted; it never refuses a catalog in which all can be. */
  method SelectComplete(q: Query) returns (r: Result<Selection, Rejection>)
    ensures Reliable(q) && r.Ok? ==> Correct(q, IndexOf(q.versions), r.value)
    ensures Reliable(q) && r.Err? ==> Untrusted(q, r.error)
    ensures DistinctReferences(q.versions) && Trusted(q) ==> r.Ok? && Correct(q, IndexOf(q.versions), r.value)
    ensures var roots := RootsFrom(q, q.versions, map[]).0;
            roots.Ok? && SomePair(roots.value) ==> r == Ok(Ambiguous)
  {
    hide Reliable, InForce, Correct, IndexOf, RootsFrom, DistinctReferences, SomePair;
    if DistinctReferences(q.versions) && Trusted(q) {
      TrustedIsReliable(q);
    }
    var search := new Search(q);
    r := search.Run();
  }
}
