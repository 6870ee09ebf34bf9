/** Direct selection, which looks for dependencies among its candidates only, and how it compares with complete
    selection. */
module DirectSelection {
  import opened Wrappers
  import opened Lifecycle
  import opened Ordering
  import opened PolicyGraph
  import opened PolicyClosure

  /** A version in force that this request concerns, in the requested namespace. */
  predicate Candidate(q: Query, ns: Option<string>, s: Spec) {
    && InForce(q, s).Ok? && InForce(q, s).value.Some?
    && s.coverage == q.coverage && s.policyNamespace == ns && ForEnvironment(q, s)
  }

  /** The candidates of the tenant in catalog order, or the first version of the tenant that cannot be trusted. */
  function Candidates(q: Query, ns: Option<string>, versions: seq<Spec>): Result<seq<Spec>, Rejection> {
    if versions == [] then Ok([])
    else
      var n := |versions| - 1;
      match Candidates(q, ns, versions[..n])
      case Err(e) => Err(e)
      case Ok(found) =>
        var s := versions[n];
        if s.tenant != q.tenant then Ok(found)
        else if InForce(q, s).Err? then Err(InForce(q, s).error)
        else Ok(if Candidate(q, ns, s) then found + [s] else found)
  }

  /** Every dependency and overlay of a selected version is the reference of a selected version. */
  predicate ClosedAt(specs: seq<Spec>) {
    forall s :: s in specs ==> forall d :: d in Edges(s) ==> exists t :: t in specs && Reference(t) == d
  }

  function DirectSelection(q: Query, ns: Option<string>): Result<Selection, Rejection> {
    match Candidates(q, ns, q.versions)
    case Err(e) => Err(e)
    case Ok(found) =>
      if SomePair(found) then Ok(Ambiguous)
      else if found == [] || !ClosedAt(found) then Ok(NoSafePolicy)
      else Ok(Complete(SortBy(found, ModuleKey), AllEvents(q, found), AllDecisions(q, found)))
  }

  function AllEvents(q: Query, specs: seq<Spec>): set<ObjectRef> {
    set s, e | s in specs && e in AppliedTo(q, s) :: EventReference(e)
  }

  function AllDecisions(q: Query, specs: seq<Spec>): set<ObjectRef> {
    set s, e, x | s in specs && e in AppliedTo(q, s) && x in e.acceptedDecisions :: x
  }

  method Select(q: Query, ns: Option<string>) returns (r: Result<Selection, Rejection>)
    ensures r == DirectSelection(q, ns)
  {
    hide InForce, ForEnvironment, AppliedTo, Edges;
    var found: seq<Spec> := [];
    for k := 0 to |q.versions|
      invariant Candidates(q, ns, q.versions[..k]) == Ok(found)
    {
      assert q.versions[..k + 1][..k] == q.versions[..k];
      var s := q.versions[k];
      if s.tenant == q.tenant {
        var checked := InForce(q, s);
        if checked.Err? {
          FirstRejection(q, ns, q.versions, k + 1);
          return Err(checked.error);
        }
        if checked.value.Some? && s.coverage == q.coverage && s.policyNamespace == ns && ForEnvironment(q, s) {
          found := found + [s];
        }
      }
    }
    hide Candidates, SomePair, ClosedAt, SortBy, AllEvents, AllDecisions;
    assert q.versions[..|q.versions|] == q.versions;
    var shared := SharesModule(found);
    if shared {
      return Ok(Ambiguous);
    }
    var references := set s | s in found :: Reference(s);
    assert forall d :: d in references <==> exists t :: t in found && Reference(t) == d;
    for k := 0 to |found|
      invariant forall j, d :: 0 <= j < k && d in Edges(found[j]) ==> d in references
    {
      if exists d :: d in Edges(found[k]) && d !in references {
        NotClosed(found, found[k], references);
        return Ok(NoSafePolicy);
      }
    }
    EachClosed(found, references);
    if found == [] {
      return Ok(NoSafePolicy);
    }
    r := Ok(Complete(SortBy(found, ModuleKey), AllEvents(q, found), AllDecisions(q, found)));
  }

  lemma NotClosed(specs: seq<Spec>, s: Spec, references: set<SpecRef>)
    requires s in specs && exists d :: d in Edges(s) && d !in references
    requires forall d :: d in references <==> exists t :: t in specs && Reference(t) == d
    ensures !ClosedAt(specs)
  {
    hide Edges;
    var d :| d in Edges(s) && d !in references;
  }

  lemma EachClosed(specs: seq<Spec>, references: set<SpecRef>)
    requires forall j, d :: 0 <= j < |specs| && d in Edges(specs[j]) ==> d in references
    requires forall d :: d in references <==> exists t :: t in specs && Reference(t) == d
    ensures ClosedAt(specs)
  {
    hide Edges;
    forall s, d | s in specs && d in Edges(s)
      ensures exists t :: t in specs && Reference(t) == d
    {
      var j :| 0 <= j < |specs| && specs[j] == s;
      assert d in Edges(specs[j]);
      assert d in references;
    }
  }

  lemma {:induction false} FirstRejection(q: Query, ns: Option<string>, versions: seq<Spec>, k: nat)
    requires k <= |versions| && Candidates(q, ns, versions[..k]).Err?
    ensures Candidates(q, ns, versions) == Candidates(q, ns, versions[..k])
  {
    hide InForce, Candidate;
    if k == |versions| {
      assert versions[..k] == versions;
    } else {
      var n := |versions| - 1;
      assert versions[..n][..k] == versions[..k];
      FirstRejection(q, ns, versions[..n], k);
    }
  }

  // ---- Against complete selection ------------------------------------------

  lemma {:induction false} CandidateMembers(q: Query, ns: Option<string>, versions: seq<Spec>)
    requires Candidates(q, ns, versions).Ok?
    ensures forall s :: s in Candidates(q, ns, versions).value
                        <==> s in versions && s.tenant == q.tenant && Candidate(q, ns, s)
  {
    hide InForce, ForEnvironment;
    if versions != [] {
      var n := |versions| - 1;
      CandidateMembers(q, ns, versions[..n]);
      assert versions == versions[..n] + [versions[n]];
    }
  }

  /** All applicable versions are in the requested namespace. */
  ghost predicate OneNamespace(q: Query, ns: Option<string>) {
    forall s :: IsRoot(q, s) ==> s.policyNamespace == ns
  }

  lemma CandidatesAreRoots(q: Query, ns: Option<string>)
    requires Candidates(q, ns, q.versions).Ok? && OneNamespace(q, ns)
    ensures AreRoots(q, Candidates(q, ns, q.versions).value)
  {
    hide InForce, ForEnvironment;
    CandidateMembers(q, ns, q.versions);
  }

  /** From a closed set of roots no path leads out. */
  lemma {:induction false} PathStaysClosed(q: Query, index: ByRef, specs: seq<Spec>, p: seq<SpecRef>, i: nat)
    returns (s: Spec)
    requires DistinctReferences(q.versions) && Indexes(index, q.versions) && AreRoots(q, specs) && ClosedAt(specs)
    requires IsPath(index, p) && i < |p| && (exists root :: root in specs && Reference(root) == p[0])
    ensures s in specs && Reference(s) == p[i] && p[i] in index && index[p[i]] == s
  {
    hide InForce, Concerned, Edges, DistinctReferences, Indexes;
    if i == 0 {
      s :| s in specs && Reference(s) == p[0];
    } else {
      var previous := PathStaysClosed(q, index, specs, p, i - 1);
      assert p[(i - 1) + 1] in Edges(index[p[i - 1]]);
      s :| s in specs && Reference(s) == p[i];
    }
    UniqueIndex(index, q.versions, s);
  }

  lemma ReachStaysClosed(q: Query, index: ByRef, specs: seq<Spec>, root: Spec, x: SpecRef) returns (s: Spec)
    requires DistinctReferences(q.versions) && Indexes(index, q.versions) && AreRoots(q, specs) && ClosedAt(specs)
    requires root in specs && Reaches(index, Reference(root), x)
    ensures s in specs && Reference(s) == x && x in index && index[x] == s && Good(q, index, x)
  {
    hide DistinctReferences, Indexes, ClosedAt, InForce, ForEnvironment;
    var p :| Joins(index, p, Reference(root), x);
    s := PathStaysClosed(q, index, specs, p, |p| - 1);
    assert IsRoot(q, s);
  }

  lemma ClosedRootsAreClosure(q: Query, index: ByRef, specs: seq<Spec>, s: Spec)
    requires DistinctReferences(q.versions) && Indexes(index, q.versions) && AreRoots(q, specs) && ClosedAt(specs)
    ensures s in specs <==> s in Closure(q, index)
  {
    hide DistinctReferences, Indexes, ClosedAt, IsRoot, Reaches, Good;
    if s in specs {
      assert IsRoot(q, s);
      RootIndexed(q, index, s);
      PathToItself(index, Reference(s));
      assert Needed(q, index, Reference(s));
    }
    if s in Closure(q, index) {
      var r :| r in index && Needed(q, index, r) && index[r] == s;
      var root :| IsRoot(q, root) && Reaches(index, Reference(root), r);
      var t := ReachStaysClosed(q, index, specs, root, r);
    }
  }

  lemma RootIndexed(q: Query, index: ByRef, s: Spec)
    requires DistinctReferences(q.versions) && Indexes(index, q.versions) && IsRoot(q, s)
    ensures Reference(s) in index && index[Reference(s)] == s
  {
    hide DistinctReferences, Indexes, InForce;
    UniqueIndex(index, q.versions, s);
  }

  /** Some selected version is on a dependency cycle. */
  ghost predicate SomeCycle(index: ByRef, specs: seq<Spec>) {
    exists s :: s in specs && OnCycle(index, Reference(s))
  }

  lemma BlockedIffCycle(q: Query, index: ByRef, specs: seq<Spec>)
    requires DistinctReferences(q.versions) && Indexes(index, q.versions) && AreRoots(q, specs) && ClosedAt(specs)
    ensures SomeRootBlocked(q, index) <==> SomeCycle(index, specs)
  {
    hide DistinctReferences, Indexes, ClosedAt, IsRoot, Reaches, Good, OnCycle;
    if SomeRootBlocked(q, index) {
      var root :| IsRoot(q, root) && Blocked(q, index, Reference(root));
      var x :| Obstacle(q, index, Reference(root), x);
      var s := ReachStaysClosed(q, index, specs, root, x);
    }
    if SomeCycle(index, specs) {
      var s :| s in specs && OnCycle(index, Reference(s));
      PathToItself(index, Reference(s));
      assert Obstacle(q, index, Reference(s), Reference(s));
      assert IsRoot(q, s) && Blocked(q, index, Reference(s));
    }
  }

  lemma {:induction false} CandidatesDistinct(q: Query, ns: Option<string>, versions: seq<Spec>)
    requires DistinctReferences(versions) && Candidates(q, ns, versions).Ok?
    ensures Distinct(Candidates(q, ns, versions).value)
  {
    hide InForce, Candidate, Reference;
    if versions != [] {
      var n := |versions| - 1;
      CandidatesDistinct(q, ns, versions[..n]);
      CandidateMembers(q, ns, versions[..n]);
      assert versions[n] !in versions[..n];
    }
  }

  /** A closed, unambiguous, nonempty direct selection is the right outcome unless a dependency cycle blocks it. */
  lemma ClosedOutcome(q: Query, ns: Option<string>, c: Selection)
    requires DistinctReferences(q.versions) && OneNamespace(q, ns)
    requires DirectSelection(q, ns) == Ok(c) && c.Complete?
    ensures Correct(q, IndexOf(q.versions),
                    if SomeCycle(IndexOf(q.versions), Candidates(q, ns, q.versions).value) then NoSafePolicy else c)
  {
    hide DistinctReferences, OneNamespace, ClosedAt, IsRoot, SomeCycle, Closure, SortBy, SomePair, Describes;
    hide IndexOf, Indexes, AllEvents, AllDecisions, Candidates, AreRoots, SharedModule, SomeRootBlocked;
    var index, specs := IndexOf(q.versions), Candidates(q, ns, q.versions).value;
    IndexOfIndexes(q.versions);
    CandidatesAreRoots(q, ns);
    BlockedIffCycle(q, index, specs);
    assert IsRoot(q, specs[0]) by { FirstIsRoot(q, specs); }
    ListedAreDistinct(specs);
    forall s: Spec
      ensures s in specs <==> s in Closure(q, index)
      ensures s in specs <==> s in Roots(q)
    {
      ClosedRootsAreClosure(q, index, specs, s);
      ListedRoot(q, specs, s);
    }
    SharedInList(specs, Roots(q));
    SharedInList(specs, Closure(q, index));
    DirectIsDescribed(q, Closure(q, index), specs);
  }

  lemma CompleteOutcome(q: Query, ns: Option<string>, c: Selection)
    requires DirectSelection(q, ns) == Ok(c)
    ensures Candidates(q, ns, q.versions).Ok?
    ensures var found := Candidates(q, ns, q.versions).value;
            && (SomePair(found) ==> c == Ambiguous)
            && (!SomePair(found) ==> (c.Complete? <==> found != [] && ClosedAt(found))
                                     && (!c.Complete? ==> c == NoSafePolicy))
  {
    hide Candidates, SomePair, ClosedAt, SortBy, AllEvents, AllDecisions;
  }

  /** Without candidates, or with two of one module, both selections give the same. */
  lemma EarlyOutcome(q: Query, ns: Option<string>, c: Selection)
    requires DistinctReferences(q.versions) && OneNamespace(q, ns) && DirectSelection(q, ns) == Ok(c)
    requires Candidates(q, ns, q.versions).Ok?
    requires var found := Candidates(q, ns, q.versions).value; SomePair(found) || found == []
    ensures Correct(q, IndexOf(q.versions), c)
  {
    hide DistinctReferences, OneNamespace, ClosedAt, IsRoot, SomePair, Describes, IndexOf, Candidates, SharedModule;
    hide DirectSelection;
    var found := Candidates(q, ns, q.versions).value;
    CompleteOutcome(q, ns, c);
    CandidatesAreRoots(q, ns);
    if found != [] {
      FirstIsRoot(q, found);
      CandidatesDistinct(q, ns, q.versions);
      SharedInList(found, Roots(q));
    } else {
      assert ClosedAt([]) by { NothingIsClosed(); }
      assert !SomePair([]) by { NothingIsPaired(); }
    }
  }

  lemma NothingIsClosed()
    ensures ClosedAt([])
  {
  }

  lemma NothingIsPaired()
    ensures !SomePair([])
  {
  }

  /** An unclosed, unambiguous direct selection says "no safe policy"; that is right exactly when a root is blocked. */
  lemma UnclosedOutcome(q: Query, ns: Option<string>, c: Selection)
    requires DistinctReferences(q.versions) && OneNamespace(q, ns) && DirectSelection(q, ns) == Ok(c)
    requires Candidates(q, ns, q.versions).Ok?
    requires var found := Candidates(q, ns, q.versions).value; found != [] && !SomePair(found) && !ClosedAt(found)
    ensures Correct(q, IndexOf(q.versions), c) <==> SomeRootBlocked(q, IndexOf(q.versions))
  {
    hide DistinctReferences, OneNamespace, ClosedAt, IsRoot, SomePair, IndexOf, Candidates, SharedModule, Closure;
    hide SomeRootBlocked, DirectSelection, StrictlySorted;
    var found := Candidates(q, ns, q.versions).value;
    CompleteOutcome(q, ns, c);
    CandidatesAreRoots(q, ns);
    FirstIsRoot(q, found);
    CandidatesDistinct(q, ns, q.versions);
    SharedInList(found, Roots(q));
  }

  /** Where every applicable version is in the requested namespace, direct selection gives the outcome of complete
      selection exactly when it found two versions of one module, or a closed set without a dependency cycle, or an
      unclosed set that leads to something that blocks. */
  lemma DirectAgreesIff(q: Query, ns: Option<string>, c: Selection)
    requires DistinctReferences(q.versions) && OneNamespace(q, ns) && DirectSelection(q, ns) == Ok(c)
    ensures Candidates(q, ns, q.versions).Ok?
    ensures var found, index := Candidates(q, ns, q.versions).value, IndexOf(q.versions);
            Correct(q, index, c)
            <==> SomePair(found) || (if ClosedAt(found) then !SomeCycle(index, found) else SomeRootBlocked(q, index))
  {
    hide DistinctReferences, OneNamespace, ClosedAt, SomePair, IndexOf, Candidates, SomeCycle, Correct, DirectSelection;
    hide SomeRootBlocked;
    CompleteOutcome(q, ns, c);
    var found, index := Candidates(q, ns, q.versions).value, IndexOf(q.versions);
    if SomePair(found) || found == [] {
      EarlyOutcome(q, ns, c);
      assert !SomeCycle(index, []) by { NothingCycles(index); }
      NothingIsClosed();
    } else if ClosedAt(found) {
      ClosedOutcome(q, ns, c);
      if SomeCycle(index, found) {
        OneCorrectKind(q, index, c);
      }
    } else {
      UnclosedOutcome(q, ns, c);
    }
  }

  lemma NothingCycles(index: ByRef)
    ensures !SomeCycle(index, [])
  {
  }

  lemma OneCorrectKind(q: Query, index: ByRef, c: Selection)
    requires c.Complete? && Correct(q, index, NoSafePolicy)
    ensures !Correct(q, index, c)
  {
    hide IsRoot, SharedModule, SomeRootBlocked, Closure, StrictlySorted;
  }

  // ---- Hashes that are computed before they are used -----------------------

  /** A content hash covers the content hashes of what it refers to, so it comes after them: `depth` counts how many
      rounds of hashing a value took. Every digest that carries its content has such a depth. */
  ghost predicate Grounded(h: Hashes, depth: string -> nat) {
    forall s: Spec, d :: d in Edges(s) ==> depth(d.contentHash) < depth(h.content(s.(contentHash := "")))
  }

  /** Along a path of genuine versions the depth of the content hash falls. */
  lemma {:induction false} DepthFalls(q: Query, index: ByRef, depth: string -> nat, p: seq<SpecRef>, i: nat)
    requires Grounded(q.hashes, depth) && IsPath(index, p) && i < |p|
    requires forall k :: 0 <= k < i && p[k] in index ==>
               Reference(index[p[k]]) == p[k] && HashesHold(q.hashes, index[p[k]])
    ensures depth(p[i].contentHash) + i <= depth(p[0].contentHash)
  {
    hide Edges;
    if i > 0 {
      DepthFalls(q, index, depth, p, i - 1);
      var s := index[p[i - 1]];
      assert p[(i - 1) + 1] in Edges(s);
    }
  }

  /** No cycle consists of genuine versions only. */
  lemma CycleIsNotGenuine(q: Query, index: ByRef, depth: string -> nat, p: seq<SpecRef>)
    requires Grounded(q.hashes, depth) && Indexes(index, q.versions)
    requires |p| >= 2 && IsPath(index, p) && p[0] == p[|p| - 1]
    ensures exists k :: 0 <= k < |p| && p[k] in index && !HashesHold(q.hashes, index[p[k]])
  {
    hide HashesHold, Grounded;
    if forall k :: 0 <= k < |p| && p[k] in index ==> HashesHold(q.hashes, index[p[k]]) {
      DepthFalls(q, index, depth, p, |p| - 1);
    }
  }

  lemma ClosedHasNoCycle(q: Query, index: ByRef, specs: seq<Spec>, depth: string -> nat)
    requires Grounded(q.hashes, depth) && DistinctReferences(q.versions) && Indexes(index, q.versions)
    requires AreRoots(q, specs) && ClosedAt(specs)
    ensures !SomeCycle(index, specs)
  {
    hide HashesHold, Grounded, DistinctReferences, Indexes, ClosedAt, IsPath, AreRoots;
    forall s, p | s in specs && |p| >= 2 && Joins(index, p, Reference(s), Reference(s))
      ensures false
    {
      CycleIsNotGenuine(q, index, depth, p);
      var k :| 0 <= k < |p| && p[k] in index && !HashesHold(q.hashes, index[p[k]]);
      var t := PathStaysClosed(q, index, specs, p, k);
      RootIsGenuine(q, specs, t);
    }
  }

  lemma RootIsGenuine(q: Query, specs: seq<Spec>, s: Spec)
    requires AreRoots(q, specs) && s in specs
    ensures HashesHold(q.hashes, s)
  {
    hide HashesHold, StateAt, Concerned;
    assert IsRoot(q, s);
  }

  /** With such hashes, cycles are out of the question: direct selection gives the outcome of complete selection unless
      it misses a dependency outside its candidates that complete selection can reach. */
  lemma GroundedDirectAgreesIff(q: Query, ns: Option<string>, c: Selection, depth: string -> nat)
    requires Grounded(q.hashes, depth) && DistinctReferences(q.versions) && OneNamespace(q, ns)
    requires DirectSelection(q, ns) == Ok(c)
    ensures Candidates(q, ns, q.versions).Ok?
    ensures var found, index := Candidates(q, ns, q.versions).value, IndexOf(q.versions);
            Correct(q, index, c) <==> SomePair(found) || ClosedAt(found) || SomeRootBlocked(q, index)
  {
    hide *;
    DirectAgreesIff(q, ns, c);
    var found, index := Candidates(q, ns, q.versions).value, IndexOf(q.versions);
    IndexOfIndexes(q.versions);
    CandidatesAreRoots(q, ns);
    if ClosedAt(found) {
      ClosedHasNoCycle(q, index, found, depth);
    }
  }

  /** There are such hashes: for example text longer than every content hash referred to. */
  lemma GroundedHashesExist() returns (h: Hashes, depth: string -> nat)
    ensures Grounded(h, depth)
  {
    h := Hashes((e: LifecycleEvent) => "", (s: Spec) => Longer(Edges(s)), (s: Spec) => "");
    depth := (text: string) => |text|;
    forall s: Spec, d | d in Edges(s)
      ensures depth(d.contentHash) < depth(h.content(s.(contentHash := "")))
    {
      LongerIsLonger(Edges(s), d);
    }
  }

  function Longer(refs: seq<SpecRef>): string {
    if refs == [] then "" else refs[0].contentHash + "." + Longer(refs[1..])
  }

  lemma {:induction false} LongerIsLonger(refs: seq<SpecRef>, d: SpecRef)
    requires d in refs
    ensures |d.contentHash| < |Longer(refs)|
  {
    if d != refs[0] {
      assert refs == [refs[0]] + refs[1..];
      LongerIsLonger(refs[1..], d);
    }
  }

  lemma FirstIsRoot(q: Query, specs: seq<Spec>)
    requires AreRoots(q, specs) && specs != []
    ensures IsRoot(q, specs[0])
  {
    hide IsRoot;
    assert specs[0] in specs;
  }

  lemma ListedRoot(q: Query, specs: seq<Spec>, s: Spec)
    requires AreRoots(q, specs)
    ensures s in specs <==> s in Roots(q)
  {
    hide IsRoot;
  }

  lemma ListedAreDistinct(specs: seq<Spec>)
    requires !SomePair(specs)
    ensures Distinct(specs)
  {
  }

  lemma DirectIsDescribed(q: Query, closure: iset<Spec>, specs: seq<Spec>)
    requires !SomePair(specs) && forall s :: s in specs <==> s in closure
    ensures Describes(q, closure, Complete(SortBy(specs, ModuleKey), AllEvents(q, specs), AllDecisions(q, specs)))
  {
    hide AppliedTo, SortBy, SomePair, StrictlySorted;
    SortedByModule(specs);
    SortByMembers(specs, ModuleKey);
  }
}
