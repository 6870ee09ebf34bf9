/** What a pointer reads of an intent. */
module Documents {
  import opened Wrappers
  import opened Contracts
  import opened Pointer
  import opened Predicates

  /** What is at a field of one of the four parts of the document. */
  function Reading(i: ActionIntent, part: string, field: string): Option<Json> {
    At(Document(i), [Field(part), Field(field)])
  }

  /** A name, or null. */
  predicate Names(j: Option<Json>, name: Option<string>) {
    j == Some(if name.None? then JNull else JStr(Lit(name.value)))
  }

  lemma PartReads(i: ActionIntent, part: string, fields: map<string, Json>)
    requires part in Document(i).fields && Document(i).fields[part] == JObj(fields)
    ensures forall field :: field in fields ==> Reading(i, part, field) == Some(fields[field])
    ensures forall field :: field !in fields ==> Reading(i, part, field) == None
  {
    var document := Document(i);
    assert document.JObj?;
    hide Document;
    forall field: string
      ensures Reading(i, part, field) == if field in fields then Some(fields[field]) else None
    {
      assert [Field(part), Field(field)][1..] == [Field(field)] && [Field(field)][1..] == [];
      assert At(JObj(fields), [Field(field)]) == if field in fields then Some(fields[field]) else None;
    }
  }

  /** Under "/actor": the actor's identity. */
  lemma ActorReads(i: ActionIntent)
    ensures Reading(i, "actor", "actor_id") == Some(JStr(i.actor.actorId))
    ensures Names(Reading(i, "actor", "namespace"), Some(i.actor.ns))
    ensures Names(Reading(i, "actor", "version"), Some(i.actor.version))
    ensures Reading(i, "actor", "attributes") == Some(JObj(i.actor.attributes))
  {
    hide Reading, ActorTypeName, ObjectRefJson;
    PartReads(i, "actor", ActorJson(i.actor).fields);
  }

  /** Under "/actor/type": the actor's type in lower case. */
  lemma ActorTypeReads(i: ActionIntent)
    ensures Names(Reading(i, "actor", "type"), Some("agent")) <==> i.actor.kind == Agent
    ensures Names(Reading(i, "actor", "type"), Some("human")) <==> i.actor.kind == Human
    ensures Names(Reading(i, "actor", "type"), Some("service")) <==> i.actor.kind == Service
    ensures Names(Reading(i, "actor", "type"), Some("workflow")) <==> i.actor.kind == Workflow
    ensures Names(Reading(i, "actor", "type"), Some("application")) <==> i.actor.kind == Application
    ensures Names(Reading(i, "actor", "type"), Some("organization")) <==> i.actor.kind == Organization
  {
    hide Reading, ActorTypeName, ObjectRefJson;
    PartReads(i, "actor", ActorJson(i.actor).fields);
    TypesDiffer(i.actor.kind);
  }

  lemma TypesDiffer(kind: ActorType)
    ensures ActorTypeName(kind) == "agent" <==> kind == Agent
    ensures ActorTypeName(kind) == "human" <==> kind == Human
    ensures ActorTypeName(kind) == "service" <==> kind == Service
    ensures ActorTypeName(kind) == "workflow" <==> kind == Workflow
    ensures ActorTypeName(kind) == "application" <==> kind == Application
    ensures ActorTypeName(kind) == "organization" <==> kind == Organization
  {
    assert "agent"[0] == 'a' && "application"[1] == 'p' && "agent"[1] == 'g';
    assert "human"[0] == 'h' && "service"[0] == 's' && "workflow"[0] == 'w' && "organization"[0] == 'o';
  }

  /** Under "/actor/lineage_refs" and "/actor/owner_ref": the references themselves. */
  lemma LineageReads(i: ActionIntent, k: nat)
    requires k < |i.actor.lineage|
    ensures At(Document(i), [Field("actor"), Field("lineage_refs"), Item(k)])
            == Some(ObjectRefJson(i.actor.lineage[k]))
    ensures Reading(i, "actor", "owner_ref")
            == Some(if i.actor.owner.None? then JNull else ObjectRefJson(i.actor.owner.value))
  {
    hide ObjectRefJson;
    PartReads(i, "actor", ActorJson(i.actor).fields);
    var list := ActorJson(i.actor).fields["lineage_refs"];
    var path := [Field("actor"), Field("lineage_refs"), Item(k)];
    assert path[1..] == [Field("lineage_refs"), Item(k)] && path[1..][1..] == [Item(k)] && [Item(k)][1..] == [];
    assert At(list, [Item(k)]) == Some(list.items[k]);
    assert At(ActorJson(i.actor), path[1..]) == At(list, [Item(k)]);
  }

  lemma RefReads(r: ObjectRef)
    ensures var j := ObjectRefJson(r);
            && At(j, [Field("object_id")]) == Some(JStr(r.objectId))
            && Names(At(j, [Field("namespace")]), Some(r.ns))
            && Names(At(j, [Field("object_type")]), Some(r.objectType))
            && Names(At(j, [Field("version")]), r.version)
            && At(j, [Field("digest")])
               == Some(if r.digest.None? then JNull else JStr(Hashed("sha256:", r.digest.value)))
  {
    forall name: string
      ensures [Field(name)][1..] == []
    {
    }
  }

  /** Under "/action": what is asked for, the kind of action in lower case. */
  lemma ActionReads(i: ActionIntent)
    ensures Names(Reading(i, "action", "domain_action"), Some(i.action.domainAction))
    ensures Reading(i, "action", "requested_effect") == Some(i.action.requestedEffect)
    ensures Names(Reading(i, "action", "type"), Some("observe")) <==> i.action.actionType == Observe
    ensures Names(Reading(i, "action", "type"), Some("infer")) <==> i.action.actionType == Infer
    ensures Names(Reading(i, "action", "type"), Some("communicate")) <==> i.action.actionType == Communicate
    ensures Names(Reading(i, "action", "type"), Some("modify")) <==> i.action.actionType == Modify
    ensures Names(Reading(i, "action", "type"), Some("commit")) <==> i.action.actionType == Commit
    ensures Names(Reading(i, "action", "type"), Some("transfer")) <==> i.action.actionType == Transfer
    ensures Names(Reading(i, "action", "type"), Some("delegate")) <==> i.action.actionType == Delegate
  {
    hide Reading, ActionName;
    PartReads(i, "action", ActionJson(i.action).fields);
    ActionsDiffer(i.action.actionType);
  }

  lemma ActionsDiffer(a: CanonicalAction)
    ensures ActionName(a) == "observe" <==> a == Observe
    ensures ActionName(a) == "infer" <==> a == Infer
    ensures ActionName(a) == "communicate" <==> a == Communicate
    ensures ActionName(a) == "modify" <==> a == Modify
    ensures ActionName(a) == "commit" <==> a == Commit
    ensures ActionName(a) == "transfer" <==> a == Transfer
    ensures ActionName(a) == "delegate" <==> a == Delegate
  {
    assert "communicate"[3] == 'm' && "commit"[4] == 'i' && "communicate"[4] == 'u';
    assert "observe"[0] == 'o' && "infer"[0] == 'i' && "communicate"[0] == 'c' && "commit"[0] == 'c';
    assert "modify"[0] == 'm' && "transfer"[0] == 't' && "delegate"[0] == 'd';
  }

  /** Under "/resource" and "/context". */
  lemma ResourceReads(i: ActionIntent)
    ensures Names(Reading(i, "resource", "namespace"), Some(i.resource.ns))
    ensures Names(Reading(i, "resource", "resource_id"), Some(i.resource.resourceId))
    ensures Names(Reading(i, "resource", "version"), Some(i.resource.version))
    ensures Names(Reading(i, "resource", "type"), Some(i.resource.resourceType))
    ensures Names(Reading(i, "resource", "business_id"), i.resource.businessId)
    ensures Reading(i, "resource", "attributes") == Some(JObj(i.resource.attributes))
    ensures forall name :: Reading(i, "context", name) == if name in i.context then Some(i.context[name]) else None
  {
    hide Reading;
    PartReads(i, "resource", ResourceJson(i.resource).fields);
    PartReads(i, "context", i.context);
  }
}
