/** Closed three-valued predicates over the document an intent presents. */
module Predicates {
  import opened Wrappers
  import opened Contracts
  import opened Pointer

  datatype PredicateResult = Yes | No | Unknown

  // ---- The document --------------------------------------------------------

  function Name(s: string): Json { JStr(Lit(s)) }

  function OptionalName(s: Option<string>): Json {
    match s
    case None => JNull
    case Some(v) => Name(v)
  }

  function DigestText(d: Digest): Json { JStr(Hashed("sha256:", d)) }

  function ObjectRefJson(r: ObjectRef): Json {
    JObj(map["namespace" := Name(r.ns), "object_type" := Name(r.objectType), "object_id" := JStr(r.objectId),
             "version" := OptionalName(r.version),
             "digest" := match r.digest case None => JNull case Some(d) => DigestText(d)])
  }

  function ActorTypeName(t: ActorType): string {
    match t
    case Agent => "agent"
    case Human => "human"
    case Service => "service"
    case Workflow => "workflow"
    case Application => "application"
    case Organization => "organization"
  }

  function ActionName(a: CanonicalAction): string {
    match a
    case Observe => "observe"
    case Infer => "infer"
    case Communicate => "communicate"
    case Modify => "modify"
    case Commit => "commit"
    case Transfer => "transfer"
    case Delegate => "delegate"
  }

  function ActorJson(a: Actor): Json {
    JObj(map["schema" := Name("controlspec/v0/actor"), "schema_version" := Name("0.1.0"),
             "namespace" := Name(a.ns), "actor_id" := JStr(a.actorId), "version" := Name(a.version),
             "type" := Name(ActorTypeName(a.kind)),
             "owner_ref" := match a.owner case None => JNull case Some(r) => ObjectRefJson(r),
             "lineage_refs" := JArr(seq(|a.lineage|, i requires 0 <= i < |a.lineage| => ObjectRefJson(a.lineage[i]))),
             "attributes" := JObj(a.attributes)])
  }

  function ActionJson(a: Action): Json {
    JObj(map["type" := Name(ActionName(a.actionType)), "domain_action" := Name(a.domainAction),
             "requested_effect" := a.requestedEffect])
  }

  function ResourceJson(r: Resource): Json {
    JObj(map["schema" := Name("controlspec/v0/resource"), "schema_version" := Name("0.1.0"),
             "namespace" := Name(r.ns), "resource_id" := Name(r.resourceId), "version" := Name(r.version),
             "type" := Name(r.resourceType), "business_id" := OptionalName(r.businessId),
             "attributes" := JObj(r.attributes)])
  }

  function Document(intent: ActionIntent): Json {
    JObj(map["actor" := ActorJson(intent.actor), "action" := ActionJson(intent.action),
             "resource" := ResourceJson(intent.resource), "context" := JObj(intent.context)])
  }

  // ---- Equality ------------------------------------------------------------

  /** Python's `==` on JSON values: inside containers a boolean equals the integer it counts as. */
  predicate LooseEqual(a: Json, b: Json) {
    match (a, b)
    case (JObj(m), JObj(n)) => m.Keys == n.Keys && forall k :: k in m ==> k in n && LooseEqual(m[k], n[k])
    case (JArr(s), JArr(t)) => |s| == |t| && forall i :: 0 <= i < |s| ==> LooseEqual(s[i], t[i])
    case (JBool(x), JInt(y)) => (if x then 1 else 0) == y
    case (JInt(x), JBool(y)) => x == (if y then 1 else 0)
    case _ => a == b
  }

  predicate SameType(a: Json, b: Json) {
    match a
    case JNull => b.JNull?
    case JBool(_) => b.JBool?
    case JInt(_) => b.JInt?
    case JStr(_) => b.JStr?
    case JArr(_) => b.JArr?
    case JObj(_) => b.JObj?
  }

  predicate Equal(a: Json, b: Json) {
    SameType(a, b) && LooseEqual(a, b)
  }

  /** Nothing in the value, at any depth, is a boolean or an integer that counts as one. */
  predicate Unambiguous(j: Json) {
    match j
    case JBool(_) => false
    case JInt(n) => n != 0 && n != 1
    case JArr(items) => forall i :: 0 <= i < |items| ==> Unambiguous(items[i])
    case JObj(fields) => forall k :: k in fields ==> Unambiguous(fields[k])
    case _ => true
  }

  lemma {:induction false} LooseIsExact(a: Json, b: Json)
    requires Unambiguous(a) && LooseEqual(a, b)
    ensures a == b
  {
    match (a, b)
    case (JObj(m), JObj(n)) =>
      forall k | k in m
        ensures m[k] == n[k]
      {
        LooseIsExact(m[k], n[k]);
      }
    case (JArr(s), JArr(t)) =>
      forall i | 0 <= i < |s|
        ensures s[i] == t[i]
      {
        LooseIsExact(s[i], t[i]);
      }
    case _ =>
  }

  lemma {:induction false} LooseReflexive(a: Json)
    ensures LooseEqual(a, a)
  {
    match a
    case JObj(m) =>
      forall k | k in m
        ensures LooseEqual(m[k], m[k])
      {
        LooseReflexive(m[k]);
      }
    case JArr(s) =>
      forall i | 0 <= i < |s|
        ensures LooseEqual(s[i], s[i])
      {
        LooseReflexive(s[i]);
      }
    case _ =>
  }

  /** An ambiguous value has a different value that Python calls equal. */
  lemma {:induction false} Lookalike(a: Json) returns (b: Json)
    requires !Unambiguous(a)
    ensures a != b && LooseEqual(a, b)
    ensures a.JArr? ==> b.JArr?
    ensures a.JObj? ==> b.JObj?
  {
    match a
    case JBool(x) => b := JInt(if x then 1 else 0);
    case JInt(n) => b := JBool(n == 1);
    case JArr(s) =>
      var i :| 0 <= i < |s| && !Unambiguous(s[i]);
      var c := Lookalike(s[i]);
      forall j | 0 <= j < |s|
        ensures LooseEqual(s[j], s[i := c][j])
      {
        LooseReflexive(s[j]);
      }
      b := JArr(s[i := c]);
      assert s[i := c][i] != s[i];
    case JObj(m) =>
      var k :| k in m && !Unambiguous(m[k]);
      var c := Lookalike(m[k]);
      var n := m[k := c];
      assert n.Keys == m.Keys;
      forall j | j in m
        ensures LooseEqual(m[j], n[j])
      {
        LooseReflexive(m[j]);
      }
      b := JObj(n);
      assert n[k] != m[k];
  }

  /** Equality is exact for a value precisely when it is a scalar or hides no boolean, 0 or 1. */
  lemma EqualIsExactIff(a: Json)
    ensures (forall b :: Equal(a, b) <==> a == b) <==> (!a.JArr? && !a.JObj?) || Unambiguous(a)
  {
    LooseReflexive(a);
    if Unambiguous(a) {
      forall b | LooseEqual(a, b)
        ensures a == b
      {
        LooseIsExact(a, b);
      }
    } else if a.JArr? || a.JObj? {
      var b := Lookalike(a);
      assert Equal(a, b);
    }
  }

  // ---- Predicates ----------------------------------------------------------

  function Truth(b: bool): PredicateResult { if b then Yes else No }

  predicate Holds(c: Comparison, left: int, right: int) {
    match c
    case Lt => left < right
    case Lte => left <= right
    case Gt => left > right
    case Gte => left >= right
  }

  /** The outcome once the pointer has resolved, to a value or to nothing. */
  function Judge(p: Predicate, found: Option<Json>): PredicateResult {
    match (p, found)
    case (Exists(_, expected), _) => Truth(found.Some? == expected)
    case (_, None) => Unknown
    case (Eq(_, value), Some(v)) => Truth(Equal(v, value))
    case (In(_, values), Some(v)) => Truth(exists i :: 0 <= i < |values| && Equal(v, values[i]))
    case (Compare(_, comparison, bound), Some(v)) =>
      if v.JInt? && bound.JInt? then Truth(Holds(comparison, v.n, bound.n)) else Unknown
  }

  function EvaluatePredicate(p: Predicate, document: Json): Result<PredicateResult, PointerError> {
    match Resolve(document, p.path)
    case Err(e) => Err(e)
    case Ok(found) => Ok(Judge(p, found))
  }

  // ---- What the three results mean -----------------------------------------

  /** What the pointer leads to settles the predicate: something is there or not, as expected; the value is the one
      asked for, or one of those asked for; two integers compare as asked. */
  predicate Confirmed(p: Predicate, document: Json) {
    var at := Resolve(document, p.path);
    && at.Ok?
    && (p.Exists? ==> at.value.Some? == p.expected)
    && (!p.Exists? ==> at.value.Some?)
    && (p.Eq? ==> Equal(at.value.value, p.value))
    && (p.In? ==> exists w :: w in p.values && Equal(at.value.value, w))
    && (p.Compare? ==> at.value.value.JInt? && p.bound.JInt? && Ordered(p.comparison, at.value.value.n - p.bound.n))
  }

  /** The sign of a difference is the one the comparison asks for. */
  predicate Ordered(c: Comparison, difference: int) {
    && (c == Lt ==> difference < 0) && (c == Lte ==> difference <= 0)
    && (c == Gt ==> difference > 0) && (c == Gte ==> difference >= 0)
  }

  /** Nothing is there to judge, or it cannot be ordered. */
  predicate Undecided(p: Predicate, document: Json) {
    var at := Resolve(document, p.path);
    && at.Ok? && !p.Exists?
    && (at.value.None? || (p.Compare? && !(at.value.value.JInt? && p.bound.JInt?)))
  }

  /** The pointer resolves, to a value or to nothing, and the predicate is neither confirmed nor undecided. */
  predicate Refuted(p: Predicate, document: Json) {
    Resolve(document, p.path).Ok? && !Confirmed(p, document) && !Undecided(p, document)
  }

  lemma JudgedIff(p: Predicate, document: Json)
    ensures EvaluatePredicate(p, document) == Ok(Yes) <==> Confirmed(p, document)
    ensures EvaluatePredicate(p, document) == Ok(Unknown) <==> Undecided(p, document)
    ensures EvaluatePredicate(p, document) == Ok(No) <==> Refuted(p, document)
    ensures EvaluatePredicate(p, document).Ok? <==> Resolve(document, p.path).Ok?
  {
    hide Resolve, Equal;
    var at := Resolve(document, p.path);
    if p.In? && at.Ok? && at.value.Some? {
      var v := at.value.value;
      if w :| w in p.values && Equal(v, w) {
        var i :| 0 <= i < |p.values| && p.values[i] == w;
        assert Equal(v, p.values[i]);
      }
    }
  }
}
