/** The append-only log whose events are chained by hash. */
module Ledgers {
  import opened Wrappers
  import opened Contracts

  /** The hash of an event's envelope, or the all-zero value before the first event. */
  datatype ChainHash<P> =
    | Genesis
    | EventHash(scope: Digest, actionId: string, kind: string, payload: P, previous: ChainHash<P>)

  datatype Event<P> = Event(scope: Digest, actionId: string, kind: string, payload: P,
                            previous: ChainHash<P>, hash: ChainHash<P>)

  function EnvelopeHash<P>(e: Event<P>): ChainHash<P> {
    EventHash(e.scope, e.actionId, e.kind, e.payload, e.previous)
  }

  function Head<P>(log: seq<Event<P>>): ChainHash<P> {
    if log == [] then Genesis else log[|log| - 1].hash
  }

  function Append<P>(log: seq<Event<P>>, scope: Digest, actionId: string, kind: string, payload: P): seq<Event<P>> {
    log + [Event(scope, actionId, kind, payload, Head(log), EventHash(scope, actionId, kind, payload, Head(log)))]
  }

  predicate Concerns<P>(e: Event<P>, scope: Digest, actionId: string, kind: string) {
    e.scope == scope && e.actionId == actionId && e.kind == kind
  }

  /** The payload of the newest event of a kind for an action. */
  function Latest<P>(log: seq<Event<P>>, scope: Digest, actionId: string, kind: string): Option<P> {
    if log == [] then None
    else if Concerns(log[|log| - 1], scope, actionId, kind) then Some(log[|log| - 1].payload)
    else Latest(log[..|log| - 1], scope, actionId, kind)
  }

  /** Every event names its predecessor's hash and carries its own. */
  predicate Chained<P(==)>(log: seq<Event<P>>) {
    forall i :: 0 <= i < |log| ==>
      log[i].previous == Head(log[..i]) && log[i].hash == EnvelopeHash(log[i])
  }

  class Ledger<P(==)> {
    var events: seq<Event<P>>

    constructor ()
      ensures events == []
    {
      events := [];
    }

    method Add(scope: Digest, actionId: string, kind: string, payload: P) returns (hash: ChainHash<P>)
      modifies this
      ensures events == Append(old(events), scope, actionId, kind, payload)
      ensures hash == Head(events)
      ensures old(Chained(events)) ==> Chained(events)
    {
      hash := EventHash(scope, actionId, kind, payload, Head(events));
      if Chained(events) {
        AppendKeepsChain(events, scope, actionId, kind, payload);
      }
      events := events + [Event(scope, actionId, kind, payload, Head(events), hash)];
    }

    /** Undoes everything a transaction that failed has appended. */
    method RollBack(saved: seq<Event<P>>)
      modifies this
      ensures events == saved
    {
      events := saved;
    }

    method Find(scope: Digest, actionId: string, kind: string) returns (found: Option<P>)
      ensures found == Latest(events, scope, actionId, kind)
    {
      var n := |events|;
      assert events[..n] == events;
      while n > 0
        invariant n <= |events|
        invariant Latest(events, scope, actionId, kind) == Latest(events[..n], scope, actionId, kind)
      {
        if Concerns(events[n - 1], scope, actionId, kind) {
          return Some(events[n - 1].payload);
        }
        assert events[..n][..n - 1] == events[..n - 1];
        n := n - 1;
      }
      found := None;
    }

    method Verify() returns (ok: bool)
      ensures ok <==> Chained(events)
    {
      var previous: ChainHash<P> := Genesis;
      for i := 0 to |events|
        invariant previous == Head(events[..i])
        invariant forall j :: 0 <= j < i ==>
          events[j].previous == Head(events[..j]) && events[j].hash == EnvelopeHash(events[j])
      {
        var record := events[i];
        if record.previous != previous || EnvelopeHash(record) != record.hash {
          return false;
        }
        assert events[..i + 1][|events[..i + 1]| - 1] == record;
        previous := record.hash;
      }
      ok := true;
    }
  }

  // ---- Laws ----------------------------------------------------------------

  lemma AppendKeepsChain<P>(log: seq<Event<P>>, scope: Digest, actionId: string, kind: string, payload: P)
    requires Chained(log)
    ensures Chained(Append(log, scope, actionId, kind, payload))
  {
    var next := Append(log, scope, actionId, kind, payload);
    forall i | 0 <= i < |next|
      ensures next[i].previous == Head(next[..i]) && next[i].hash == EnvelopeHash(next[i])
    {
      if i < |log| {
        assert next[..i] == log[..i];
      } else {
        assert next[..i] == log;
      }
    }
  }

  lemma LatestAfterAppend<P>(log: seq<Event<P>>, scope: Digest, actionId: string, kind: string, payload: P,
                             scope': Digest, actionId': string, kind': string)
    ensures Latest(Append(log, scope, actionId, kind, payload), scope', actionId', kind')
            == if scope == scope' && actionId == actionId' && kind == kind' then Some(payload)
               else Latest(log, scope', actionId', kind')
  {
    var next := Append(log, scope, actionId, kind, payload);
    assert next[..|next| - 1] == log;
  }

  /** What is found is the payload of the newest event of the kind, and nothing only if there is none. */
  lemma {:induction false} LatestIff<P>(log: seq<Event<P>>, scope: Digest, actionId: string, kind: string)
    ensures Latest(log, scope, actionId, kind).None?
            <==> forall k :: 0 <= k < |log| ==> !Concerns(log[k], scope, actionId, kind)
    ensures Latest(log, scope, actionId, kind).Some?
            ==> exists k :: 0 <= k < |log| && Concerns(log[k], scope, actionId, kind)
                            && log[k].payload == Latest(log, scope, actionId, kind).value
                            && forall j :: k < j < |log| ==> !Concerns(log[j], scope, actionId, kind)
  {
    if log != [] {
      var n := |log| - 1;
      LatestIff(log[..n], scope, actionId, kind);
    }
  }

  /** One append request. */
  datatype Entry<P> = Entry(scope: Digest, actionId: string, kind: string, payload: P)

  function AppendAll<P>(log: seq<Event<P>>, entries: seq<Entry<P>>): seq<Event<P>>
    decreases |entries|
  {
    if entries == [] then log
    else
      var e := entries[0];
      AppendAll(Append(log, e.scope, e.actionId, e.kind, e.payload), entries[1..])
  }

  /** Any run of appends keeps the log verifiable. */
  lemma {:induction false} AppendAllKeepsChain<P>(log: seq<Event<P>>, entries: seq<Entry<P>>)
    requires Chained(log)
    ensures Chained(AppendAll(log, entries))
    decreases |entries|
  {
    if entries != [] {
      var e := entries[0];
      AppendKeepsChain(log, e.scope, e.actionId, e.kind, e.payload);
      AppendAllKeepsChain(Append(log, e.scope, e.actionId, e.kind, e.payload), entries[1..]);
    }
  }

  /** Only the empty log has the genesis value as its head. */
  lemma HeadOfChain<P>(log: seq<Event<P>>)
    requires Chained(log)
    ensures Head(log) == if log == [] then Genesis else EnvelopeHash(log[|log| - 1])
  {
  }

  /** Two verifiable logs with the same head hash hold the same history, event for event. */
  lemma {:induction false} HeadFixesHistory<P>(a: seq<Event<P>>, b: seq<Event<P>>)
    requires Chained(a) && Chained(b) && Head(a) == Head(b)
    ensures a == b
    decreases |a|
  {
    HeadOfChain(a);
    HeadOfChain(b);
    if a != [] && b != [] {
      var m, n := |a| - 1, |b| - 1;
      assert a[m] == b[n];
      ChainPrefix(a, m);
      ChainPrefix(b, n);
      HeadFixesHistory(a[..m], b[..n]);
      assert a == a[..m] + [a[m]] && b == b[..n] + [b[n]];
    }
  }

  lemma ChainPrefix<P>(log: seq<Event<P>>, n: nat)
    requires Chained(log) && n <= |log|
    ensures Chained(log[..n])
  {
    forall i | 0 <= i < n
      ensures log[..n][i].previous == Head(log[..n][..i])
    {
      assert log[..n][..i] == log[..i];
    }
  }
}
