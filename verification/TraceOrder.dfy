/** The order of a trace: a canonical set, sorted by the canonical text of its entries. */
module TraceOrder {
  import opened Wrappers
  import opened Contracts
  import opened Ordering
  import opened Predicates
  import opened Selection
  import opened Requirements
  import opened Composition
  import opened Evaluator
  import opened Totality

  /** No canonical text of one value begins with that of another, as for JSON objects. */
  ghost predicate PrefixFree<T(!new)>(key: T -> string) {
    forall x, y :: x != y ==> !(key(x) <= key(y))
  }

  const FIRST_KEY := "{\"control_ref\":"

  /** The canonical text of an entry begins with its control reference, because keys are sorted. */
  function EntryKey(canon: Canon, rest: TraceEntry -> string): TraceEntry -> string {
    (t: TraceEntry) => FIRST_KEY + canon.control(t.ref) + rest(t)
  }

  function OrderedTrace(os: seq<Applied>, canon: Canon, rest: TraceEntry -> string): seq<TraceEntry> {
    SortBy(TraceOf(os), EntryKey(canon, rest))
  }

  function RefsOfTrace(trace: seq<TraceEntry>): seq<ControlRef> {
    seq(|trace|, k requires 0 <= k < |trace| => trace[k].ref)
  }

  /** Texts of which neither begins with the other compare the same whatever follows them. */
  lemma {:induction false} LessBeforeTail(a: string, x: string, b: string, y: string)
    requires !(a <= b) && !(b <= a)
    ensures Less(a + x, b + y) <==> Less(a, b)
  {
    assert a != [] && b != [];
    assert (a + x)[1..] == a[1..] + x && (b + y)[1..] == b[1..] + y;
    if a[0] == b[0] {
      assert a == [a[0]] + a[1..] && b == [b[0]] + b[1..];
      LessBeforeTail(a[1..], x, b[1..], y);
    }
  }

  lemma EntryOrder(canon: Canon, rest: TraceEntry -> string, t: TraceEntry, u: TraceEntry)
    requires PrefixFree(canon.control) && t.ref != u.ref
    ensures Less(EntryKey(canon, rest)(t), EntryKey(canon, rest)(u))
            <==> Less(canon.control(t.ref), canon.control(u.ref))
  {
    var a, b := canon.control(t.ref), canon.control(u.ref);
    assert FIRST_KEY + a + rest(t) == FIRST_KEY + (a + rest(t));
    assert FIRST_KEY + b + rest(u) == FIRST_KEY + (b + rest(u));
    LessConcat(FIRST_KEY, a + rest(t), FIRST_KEY, b + rest(u));
    LessIrreflexive(FIRST_KEY);
    LessBeforeTail(a, rest(t), b, rest(u));
  }

  lemma TraceMembers(os: seq<Applied>, canon: Canon, rest: TraceEntry -> string)
    ensures forall r :: r in RefsOfTrace(OrderedTrace(os, canon, rest)) <==> r in Refs(os)
  {
    hide SortBy, EntryKey;
    var trace := OrderedTrace(os, canon, rest);
    SortByMembers(TraceOf(os), EntryKey(canon, rest));
    RefsMembers(os);
    forall r
      ensures r in RefsOfTrace(trace) <==> exists o :: o in os && o.ref == r
    {
      if r in RefsOfTrace(trace) {
        var k :| 0 <= k < |trace| && trace[k].ref == r;
        assert trace[k] in trace && trace[k] in TraceOf(os);
        var j :| 0 <= j < |os| && TraceOf(os)[j] == trace[k];
        assert os[j] in os && os[j].ref == r;
      }
      if exists o :: o in os && o.ref == r {
        var j :| 0 <= j < |os| && os[j].ref == r;
        assert TraceOf(os)[j] in TraceOf(os) && TraceOf(os)[j] in trace;
        var k :| 0 <= k < |trace| && trace[k] == TraceOf(os)[j];
        assert RefsOfTrace(trace)[k] == r;
      }
    }
  }

  /** Entries of different selected controls name different controls, so the trace is in the order of references. */
  lemma TraceSorted(os: seq<Applied>, canon: Canon, rest: TraceEntry -> string)
    requires PrefixFree(canon.control) && Distinct(TraceOf(os))
    requires forall a, b :: a in os && b in os && a.ref == b.ref ==> a == b
    ensures StrictlySorted(RefsOfTrace(OrderedTrace(os, canon, rest)), canon.control)
  {
    hide SortBy, EntryKey, Less;
    var key := EntryKey(canon, rest);
    var trace := OrderedTrace(os, canon, rest);
    SortBySorted(TraceOf(os), key);
    SortBySame(TraceOf(os), key);
    SortByMembers(TraceOf(os), key);
    DistinctPermutation(trace, TraceOf(os));
    forall j, k | 0 <= j < k < |trace|
      ensures Less(canon.control(trace[j].ref), canon.control(trace[k].ref))
    {
      assert trace[j] in trace && trace[k] in trace;
      var a :| 0 <= a < |os| && TraceOf(os)[a] == trace[j];
      var b :| 0 <= b < |os| && TraceOf(os)[b] == trace[k];
      assert os[a] in os && os[b] in os;
      EntryOrder(canon, rest, trace[k], trace[j]);
      LessTotal(canon.control(trace[j].ref), canon.control(trace[k].ref));
      assert canon.control(trace[j].ref) != canon.control(trace[k].ref);
    }
  }

  /** The controls of a decision and of its trace are the same, in the same order. */
  lemma TraceRefsAreApplied(e: Evaluator, i: ActionIntent, s: Snapshot, facts: EvaluationFacts,
                            rest: TraceEntry -> string)
    requires Evaluate(e, i, s, facts).Ok? && e.canon.Faithful() && PrefixFree(e.canon.control)
    ensures SelectControls(i, s, e.canon).Ok?
    ensures RefsOfTrace(OrderedTrace(SelectControls(i, s, e.canon).value, e.canon, rest))
            == Evaluate(e, i, s, facts).value.appliedControls
  {
    hide SelectControls, Assess, Unique, Rule, DecisionWellFormed, ControlsSound, OrderedTrace, TraceOf, BuildDecision;
    var os := SelectControls(i, s, e.canon).value;
    var a := Assess(os, Situation(i, s, facts, e.registry)).value;
    DecisionBinds(e, i, s, facts);
    BuiltFields(e, i, s, facts, Compose(os, a, e.canon));
    assert Evaluate(e, i, s, facts).value.appliedControls == Unique(Refs(os), e.canon.control) by {
      assert Unique(Refs([]), e.canon.control) == [] by { NothingApplied(e.canon); }
    }
    SelectsIff(i, s, e.canon);
    forall x, y | x in os && y in os && x.ref == y.ref
      ensures x == y
    {
      OneEntryOneOutcome(e, i, s, x, y);
    }
    TraceSorted(os, e.canon, rest);
    TraceMembers(os, e.canon, rest);
    UniqueSpec(Refs(os), e.canon.control);
    StrictlySortedIsSet(RefsOfTrace(OrderedTrace(os, e.canon, rest)), Unique(Refs(os), e.canon.control),
                        e.canon.control);
  }

  lemma NothingApplied(canon: Canon)
    ensures Unique(Refs([]), canon.control) == []
  {
  }

  // ---- What a trace tells --------------------------------------------------

  /** The entry tells of the control: its reference, how each of its predicates came out, whether one is unknown, and
      the code of what it contributes. */
  predicate Tells(t: TraceEntry, c: Control, i: ActionIntent) {
    && Refers(t.ref, c) && (t.unknown <==> !Settled(c, i))
    && t.code == (if t.unknown then c.onUnknown.code else c.effect.code)
    && |t.results| == |c.match_.predicates|
    && forall k :: 0 <= k < |t.results|
         ==> t.results[k] == if Confirmed(c.match_.predicates[k], Document(i)) then Yes else Unknown
  }

  lemma {:induction false} ResultsAt(ps: seq<Predicate>, document: Json)
    requires PredicateResults(ps, document).Ok?
    ensures |PredicateResults(ps, document).value| == |ps|
    ensures forall k :: 0 <= k < |ps|
              ==> EvaluatePredicate(ps[k], document) == Ok(PredicateResults(ps, document).value[k])
  {
    hide EvaluatePredicate;
    if ps != [] {
      ResultsAt(ps[1..], document);
      forall k | 0 < k < |ps|
        ensures EvaluatePredicate(ps[k], document) == Ok(PredicateResults(ps, document).value[k])
      {
        assert ps[k] == ps[1..][k - 1];
      }
    }
  }

  lemma TellsIff(t: TraceEntry, c: Control, i: ActionIntent, observedAt: int)
    requires Selected(c, i, observedAt)
    ensures Tells(t, c, i) <==> t == EntryOf(Contributed(c, i))
  {
    hide EvaluatePredicate, Document, Confirmed, Undecided, Settled, PredicateResults, Concerns, Refers, ReferenceOf;
    SelectedIff(c, i, observedAt);
    RefersIff(t.ref, c);
    var ps := c.match_.predicates;
    ResultsAt(ps, Document(i));
    var results := PredicateResults(ps, Document(i)).value;
    forall k | 0 <= k < |ps|
      ensures results[k] == if Confirmed(ps[k], Document(i)) then Yes else Unknown
    {
      assert ps[k] in ps;
      JudgedIff(ps[k], Document(i));
    }
    if Tells(t, c, i) {
      assert t.results == results;
    }
  }

  /** A trace has an entry that tells of each selected control, and no other entries. */
  lemma TraceTells(i: ActionIntent, s: Snapshot, canon: Canon, rest: TraceEntry -> string)
    requires SelectControls(i, s, canon).Ok?
    ensures forall t :: t in OrderedTrace(SelectControls(i, s, canon).value, canon, rest)
              <==> exists c :: c in s.controls && Selected(c, i, s.observedAt) && Tells(t, c, i)
  {
    hide SelectControls, Selected, Tells, Contributed, EntryKey, SortBy;
    var os := SelectControls(i, s, canon).value;
    SelectedExactly(i, s, canon);
    SortByMembers(TraceOf(os), EntryKey(canon, rest));
    forall t
      ensures t in TraceOf(os) <==> exists o :: o in os && t == EntryOf(o)
    {
      if o :| o in os && t == EntryOf(o) {
        var k :| 0 <= k < |os| && os[k] == o;
        assert TraceOf(os)[k] == t;
      }
      if t in TraceOf(os) {
        var k :| 0 <= k < |os| && TraceOf(os)[k] == t;
        assert os[k] in os && t == EntryOf(os[k]);
      }
    }
    forall c, t | c in s.controls && Selected(c, i, s.observedAt)
      ensures Contributed(c, i) in os && (Tells(t, c, i) <==> t == EntryOf(Contributed(c, i)))
    {
      ContributedIsFor(c, i);
      TellsIff(t, c, i, s.observedAt);
    }
  }

  lemma ContributedIsFor(c: Control, i: ActionIntent)
    ensures Contributed(c, i).control == c
  {
  }
}
