/** The state cache of complete selection, keyed by object identifier, and exactly when it changes no answer. */
module PolicyCache {
  import opened Wrappers
  import opened Lifecycle
  import opened Ordering
  import opened PolicyGraph

  type Cache = map<nat, Standing>

  /** Checks one version, taking its state from the cache if its identifier is there. */
  function Checked(q: Query, cache: Cache, spec: Spec): (Result<Option<seq<LifecycleEvent>>, Rejection>, Cache) {
    if !HashesHold(q.hashes, spec) then (Err(PolicyHashInvalid(spec.specId)), cache)
    else
      match if spec.specId in cache then Ok(cache[spec.specId]) else StateAt(q.hashes, spec, q.events, q.now)
      case Err(e) => (Err(e), cache)
      case Ok(standing) =>
        (Ok(if standing.stage == Some(Published) && InWindow(spec, q.now) then Some(standing.applied) else None),
         cache[spec.specId := standing])
  }

  // ---- One pair of versions ------------------------------------------------

  predicate Readable(q: Query, s: Spec) { StateAt(q.hashes, s, q.events, q.now).Ok? }

  /** Versions that share an identifier read the same chain, so their states differ only in being rejected. */
  lemma SharedState(q: Query, a: Spec, b: Spec)
    requires a.specId == b.specId && Readable(q, a) && Readable(q, b)
    ensures StateAt(q.hashes, a, q.events, q.now) == StateAt(q.hashes, b, q.events, q.now)
  {
    hide Linked, Chain, InEffect;
  }

  /** After `a` has been checked, `b` gets its own answer exactly when they share no identifier, or `a` left nothing
      in the cache, or `b` is readable itself. */
  lemma PairIsExactIff(q: Query, a: Spec, b: Spec)
    requires HashesHold(q.hashes, a) && HashesHold(q.hashes, b)
    ensures Checked(q, Checked(q, map[], a).1, b).0 == InForce(q, b)
            <==> a.specId != b.specId || !Readable(q, a) || Readable(q, b)
  {
    hide StateAt, HashesHold;
    if a.specId == b.specId && Readable(q, a) && Readable(q, b) {
      SharedState(q, a, b);
    }
  }

  // ---- The whole catalog ---------------------------------------------------

  /** Versions with genuine hashes that share an identifier are all readable or all rejected. */
  predicate AgreeingStates(q: Query) {
    forall a, b :: a in q.versions && b in q.versions && a.specId == b.specId
                   && HashesHold(q.hashes, a) && HashesHold(q.hashes, b)
      ==> (Readable(q, a) <==> Readable(q, b))
  }

  /** After any one version has been checked, every other gets its own answer: exactly where states agree. */
  lemma CacheIsExactIff(q: Query)
    ensures (forall a, b :: a in q.versions && b in q.versions && HashesHold(q.hashes, a) && HashesHold(q.hashes, b)
               ==> Checked(q, Checked(q, map[], a).1, b).0 == InForce(q, b))
            <==> AgreeingStates(q)
  {
    hide Checked, HashesHold, InForce, Readable;
    forall a, b | HashesHold(q.hashes, a) && HashesHold(q.hashes, b)
      ensures Checked(q, Checked(q, map[], a).1, b).0 == InForce(q, b)
              <==> a.specId != b.specId || !Readable(q, a) || Readable(q, b)
    {
      PairIsExactIff(q, a, b);
    }
  }

  /** Every cached state is the state of each genuine catalog version with that identifier. */
  predicate CacheSound(q: Query, cache: Cache) {
    forall s :: s in q.versions && s.specId in cache && HashesHold(q.hashes, s)
      ==> StateAt(q.hashes, s, q.events, q.now) == Ok(cache[s.specId])
  }

  /** Where states agree, no sequence of checks ever changes an answer. */
  lemma CacheIsExact(q: Query, cache: Cache, spec: Spec)
    requires AgreeingStates(q) && CacheSound(q, cache) && spec in q.versions
    ensures Checked(q, cache, spec).0 == InForce(q, spec) && CacheSound(q, Checked(q, cache, spec).1)
  {
    hide StateAt, HashesHold;
    if HashesHold(q.hashes, spec) && Readable(q, spec) {
      forall s | s in q.versions && s.specId == spec.specId && HashesHold(q.hashes, s)
        ensures StateAt(q.hashes, s, q.events, q.now) == StateAt(q.hashes, spec, q.events, q.now)
      {
        SharedState(q, s, spec);
      }
    }
  }

  // ---- Catalogs on which selection is exact --------------------------------

  /** No two versions have one reference, and versions that share an identifier agree in being readable. */
  predicate Reliable(q: Query) {
    DistinctReferences(q.versions) && AgreeingStates(q)
  }

  predicate Trusted(q: Query) {
    forall s :: s in q.versions ==> InForce(q, s).Ok?
  }

  /** If no hash or chain check of any version rejects, identifiers may be shared freely. */
  lemma TrustedIsReliable(q: Query)
    requires DistinctReferences(q.versions) && Trusted(q)
    ensures Reliable(q)
  {
    hide StateAt, HashesHold, DistinctReferences;
    forall s | s in q.versions
      ensures Readable(q, s)
    {
    }
  }

  /** If identifiers are unique, any check may reject. */
  lemma UniqueIsReliable(q: Query)
    requires UniqueIds(q.versions)
    ensures Reliable(q)
  {
    hide HashesHold, Readable;
    forall a, b | a in q.versions && b in q.versions && a.specId == b.specId
      ensures a == b
    {
      var i :| 0 <= i < |q.versions| && q.versions[i] == a;
      var j :| 0 <= j < |q.versions| && q.versions[j] == b;
    }
  }

  lemma SameReference(q: Query, a: Spec, b: Spec)
    requires forall x, y :: q.hashes.content(x) == q.hashes.content(y) ==> x == y
    requires HashesHold(q.hashes, a) && HashesHold(q.hashes, b) && Reference(a) == Reference(b)
    ensures a == b
  {
    assert a.(contentHash := "") == b.(contentHash := "");
    assert a == a.(contentHash := "").(contentHash := a.contentHash);
    assert b == b.(contentHash := "").(contentHash := b.contentHash);
  }

  /** A content hash that names its content makes distinct genuine versions have distinct references; the catalog keeps
      its versions distinct. */
  lemma GenuineIsDistinct(q: Query)
    requires forall a, b :: q.hashes.content(a) == q.hashes.content(b) ==> a == b
    requires Distinct(q.versions) && forall s :: s in q.versions ==> HashesHold(q.hashes, s)
    ensures DistinctReferences(q.versions)
  {
    hide HashesHold, Reference;
    forall i, j | 0 <= i < j < |q.versions|
      ensures Reference(q.versions[i]) != Reference(q.versions[j])
    {
      if Reference(q.versions[i]) == Reference(q.versions[j]) {
        SameReference(q, q.versions[i], q.versions[j]);
      }
    }
  }

  lemma ReliableIndex(q: Query, index: ByRef, s: Spec)
    requires Reliable(q) && Indexes(index, q.versions) && s in q.versions
    ensures Reference(s) in index && index[Reference(s)] == s
  {
    hide Indexes, DistinctReferences, AgreeingStates;
    UniqueIndex(index, q.versions, s);
  }

  /** Two versions in force with one identifier have one reference: the first event of their chain names it. */
  lemma InForceReference(q: Query, a: Spec, b: Spec)
    requires InForce(q, a).Ok? && InForce(q, a).value.Some? && InForce(q, b).Ok? && InForce(q, b).value.Some?
    requires a.specId == b.specId
    ensures Reference(a) == Reference(b)
  {
    hide HashesHold, Chain;
    var chain := Chain(q.events, a.specId);
    assert chain != [];
    LinkAt(q.hashes, a, chain, 0);
    LinkAt(q.hashes, b, chain, 0);
  }

  // ---- The roots as the cache gives them -----------------------------------

  predicate ClaimsPublished(q: Query, s: Spec) {
    StageOf(InEffect(Chain(q.events, s.specId), q.now)) == Some(Published)
  }

  /** The roots found among the first versions of the catalog, and the cache they leave. */
  function RootsFrom(q: Query, versions: seq<Spec>, cache: Cache): (Result<seq<Spec>, Rejection>, Cache) {
    if versions == [] then (Ok([]), cache)
    else
      var n := |versions| - 1;
      var before := RootsFrom(q, versions[..n], cache);
      if before.0.Err? || !Concerned(q, versions[n]) || !ClaimsPublished(q, versions[n]) then before
      else
        var checked := Checked(q, before.1, versions[n]);
        (match checked.0
         case Err(e) => Err(e)
         case Ok(None) => before.0
         case Ok(Some(_)) => Ok(before.0.value + [versions[n]]),
         checked.1)
  }

  lemma {:induction false} FirstRejected(q: Query, versions: seq<Spec>, k: nat, cache: Cache)
    requires k <= |versions| && RootsFrom(q, versions[..k], cache).0.Err?
    ensures RootsFrom(q, versions, cache) == RootsFrom(q, versions[..k], cache)
  {
    hide Checked, Concerned, ClaimsPublished;
    if k == |versions| {
      assert versions[..k] == versions;
    } else {
      var n := |versions| - 1;
      assert versions[..n][..k] == versions[..k];
      FirstRejected(q, versions[..n], k, cache);
    }
  }
}
