// How far the cycle guard of contract.validateSchema can be trusted. The guard is never
// reset on the way down a payload, so below the first recursion of a schema nothing is
// checked. Deep is the full check; the two are compared for every component graph.

module Recursion {
  import opened Wrappers
  import opened Json
  import opened OpenApi

  // The full check: only a chain of references that comes back without having descended
  // into the payload is cut.
  predicate Deep(components: Components, schema: Option<Schema>, value: JSON, chain: set<string>)
    decreases value, 1, components.Keys - chain, schema
  {
    schema.None? ||
    var s := schema.value;
    if s.ref != "" then
      IsLocal(s.ref) &&
      var name := RefName(s.ref);
      (name in chain ||
       (Target(components, name).Some? && Deep(components, components[name], value, chain + {name})))
    else
      (value.Null? && s.nullable) || (FitsHere(s, value) && DeepBelow(components, s, value))
  }

  predicate DeepBelow(components: Components, s: Schema, value: JSON)
    decreases value, 0
  {
    match value
    case Obj(fields) =>
      forall name :: name in s.properties && name in fields ==>
        Deep(components, s.properties[name], fields[name], {})
    case Arr(items) => forall i :: 0 <= i < |items| ==> Deep(components, s.items, items[i], {})
    case _ => true
  }

  // What the guard takes on trust: wherever it cuts the check at a component that was
  // opened further up the payload, the value there passes the full check.
  predicate TrustedValuesAreDeep(components: Components, schema: Option<Schema>, value: JSON,
                                 chain: set<string>, open: set<string>)
    requires chain <= open
    decreases components.Keys - open, schema
  {
    schema.None? ||
    var s := schema.value;
    if s.ref != "" then
      IsLocal(s.ref) ==>
      var name := RefName(s.ref);
      if name in chain then true
      else if Target(components, name).None? then name !in open
      else if name in open then Deep(components, components[name], value, chain + {name})
      else TrustedValuesAreDeep(components, components[name], value, chain + {name}, open + {name})
    else TrustedBelow(components, s, value, open)
  }

  predicate TrustedBelow(components: Components, s: Schema, value: JSON, open: set<string>)
    decreases components.Keys - open, s
  {
    match value
    case Obj(fields) =>
      forall name :: name in s.properties && name in fields ==>
        TrustedValuesAreDeep(components, s.properties[name], fields[name], {}, open)
    case Arr(items) =>
      forall i :: 0 <= i < |items| ==> TrustedValuesAreDeep(components, s.items, items[i], {}, open)
    case _ => true
  }

  // For every component graph, schema and payload: the full check passes exactly when the
  // guarded one does and what it took on trust holds.
  lemma {:induction false} GuardedCheckExactly(components: Components, schema: Option<Schema>, value: JSON,
                                               chain: set<string>, open: set<string>)
    requires chain <= open
    ensures Deep(components, schema, value, chain) <==>
      Conforms(components, schema, value, open) && TrustedValuesAreDeep(components, schema, value, chain, open)
    decreases components.Keys - open, schema
  {
    if schema.Some? {
      var s := schema.value;
      if s.ref != "" {
        if IsLocal(s.ref) && RefName(s.ref) !in open && Target(components, RefName(s.ref)).Some? {
          var name := RefName(s.ref);
          GuardedCheckExactly(components, components[name], value, chain + {name}, open + {name});
        }
      } else {
        GuardedBelowExactly(components, s, value, open);
      }
    }
  }

  lemma {:induction false} GuardedBelowExactly(components: Components, s: Schema, value: JSON, open: set<string>)
    ensures DeepBelow(components, s, value) <==>
      ConformsBelow(components, s, value, open) && TrustedBelow(components, s, value, open)
    decreases components.Keys - open, s
  {
    match value
    case Obj(fields) =>
      forall name | name in s.properties && name in fields
        ensures Deep(components, s.properties[name], fields[name], {}) <==>
          Conforms(components, s.properties[name], fields[name], open) &&
          TrustedValuesAreDeep(components, s.properties[name], fields[name], {}, open)
      {
        GuardedCheckExactly(components, s.properties[name], fields[name], {}, open);
      }
    case Arr(items) =>
      forall i | 0 <= i < |items|
        ensures Deep(components, s.items, items[i], {}) <==>
          Conforms(components, s.items, items[i], open) &&
          TrustedValuesAreDeep(components, s.items, items[i], {}, open)
      {
        GuardedCheckExactly(components, s.items, items[i], {}, open);
      }
    case _ =>
  }

  // ---------------------------------------------------------------- documents without recursion

  // The components a schema refers to, without following the references.
  function References(schema: Option<Schema>): set<string>
    decreases schema
  {
    if schema.None? then {}
    else
      var s := schema.value;
      if s.ref != "" then if IsLocal(s.ref) then {RefName(s.ref)} else {}
      else (set name, r | name in s.properties.Keys && r in References(s.properties[name]) :: r) + References(s.items)
  }

  // path leads from the schema to the component target, reference by reference.
  predicate Leads(components: Components, schema: Option<Schema>, path: seq<string>, target: string)
    decreases |path|
  {
    path != [] && path[0] in References(schema) &&
    if |path| == 1 then path[0] == target
    else path[0] in components && Leads(components, components[path[0]], path[1..], target)
  }

  ghost predicate Reaches(components: Components, schema: Option<Schema>, target: string) {
    exists path :: Leads(components, schema, path, target)
  }

  // No component reaches itself.
  ghost predicate Acyclic(components: Components) {
    forall name :: name in components ==> !Reaches(components, components[name], name)
  }

  lemma ReachesOwnReference(components: Components, schema: Option<Schema>, name: string)
    requires name in References(schema)
    ensures Reaches(components, schema, name)
  {
    assert Leads(components, schema, [name], name);
  }

  lemma ReachesFurther(components: Components, schema: Option<Schema>, name: string, target: string)
    requires name in References(schema) && name in components && Reaches(components, components[name], target)
    ensures Reaches(components, schema, target)
  {
    var path :| Leads(components, components[name], path, target);
    assert ([name] + path)[1..] == path;
    assert Leads(components, schema, [name] + path, target);
  }

  lemma {:induction false} ReachesFromPart(components: Components, whole: Option<Schema>, part: Option<Schema>,
                                           target: string)
    requires References(part) <= References(whole) && Reaches(components, part, target)
    ensures Reaches(components, whole, target)
  {
    var path :| Leads(components, part, path, target);
    assert Leads(components, whole, path, target);
  }

  // A schema that reaches no open component is never cut by the guard.
  lemma {:induction false} NothingTakenOnTrust(components: Components, schema: Option<Schema>, value: JSON,
                                               chain: set<string>, open: set<string>)
    requires chain <= open && Acyclic(components)
    requires forall name :: name in open ==> !Reaches(components, schema, name)
    ensures TrustedValuesAreDeep(components, schema, value, chain, open)
    decreases components.Keys - open, schema
  {
    if schema.Some? {
      var s := schema.value;
      if s.ref != "" {
        if IsLocal(s.ref) {
          var name := RefName(s.ref);
          ReachesOwnReference(components, schema, name);
          if Target(components, name).Some? {
            forall other | other in open + {name}
              ensures !Reaches(components, components[name], other)
            {
              if Reaches(components, components[name], other) {
                ReachesFurther(components, schema, name, other);
              }
            }
            NothingTakenOnTrust(components, components[name], value, chain + {name}, open + {name});
          }
        }
      } else {
        match value
        case Obj(fields) =>
          forall name | name in s.properties && name in fields
            ensures TrustedValuesAreDeep(components, s.properties[name], fields[name], {}, open)
          {
            PartReachesNoMore(components, schema, s.properties[name], open);
            NothingTakenOnTrust(components, s.properties[name], fields[name], {}, open);
          }
        case Arr(items) =>
          PartReachesNoMore(components, schema, s.items, open);
          forall i | 0 <= i < |items|
            ensures TrustedValuesAreDeep(components, s.items, items[i], {}, open)
          {
            NothingTakenOnTrust(components, s.items, items[i], {}, open);
          }
        case _ =>
      }
    }
  }

  lemma PartReachesNoMore(components: Components, whole: Option<Schema>, part: Option<Schema>, open: set<string>)
    requires References(part) <= References(whole) && forall name :: name in open ==> !Reaches(components, whole, name)
    ensures forall name :: name in open ==> !Reaches(components, part, name)
  {
    forall name | name in open
      ensures !Reaches(components, part, name)
    {
      if Reaches(components, part, name) {
        ReachesFromPart(components, whole, part, name);
      }
    }
  }

  // In a document in which no component reaches itself, the validator checks everything.
  lemma AcyclicDocumentsAreFullyChecked(components: Components, schema: Option<Schema>, value: JSON)
    requires Acyclic(components)
    ensures Conforms(components, schema, value, {}) <==> Deep(components, schema, value, {})
  {
    NothingTakenOnTrust(components, schema, value, {}, {});
    GuardedCheckExactly(components, schema, value, {}, {});
  }

  function Link(name: string): Schema {
    Schema(PREFIX + name, Null, [], map[], None, [], false)
  }

  const NODE := Schema("", Str("object"), [], map["next" := Some(Link("Node"))], None, [], false)

  // A list whose nodes link to the next one: below the first link anything is accepted.
  lemma RecursionIsNotChecked(below: JSON)
    ensures Conforms(map["Node" := Some(NODE)], Some(NODE), Obj(map["next" := Obj(map["next" := below])]), {})
    ensures !below.Obj? ==>
      !Deep(map["Node" := Some(NODE)], Some(NODE), Obj(map["next" := Obj(map["next" := below])]), {})
  {
    var components, link := map["Node" := Some(NODE)], Some(Link("Node"));
    var node := Obj(map["next" := below]);
    assert RefName(link.value.ref) == "Node";
    assert Conforms(components, link, below, {"Node"});
    assert Conforms(components, Some(NODE), node, {"Node"});
    assert {} + {"Node"} == {"Node"};
    assert Conforms(components, link, node, {});
    if !below.Obj? {
      assert !Deep(components, Some(NODE), below, {"Node"});
      assert !Deep(components, NODE.properties["next"], node.fields["next"], {});
      assert !DeepBelow(components, NODE, node);
      assert !Deep(components, Some(NODE), node, {"Node"});
      var whole := Obj(map["next" := node]);
      assert !Deep(components, NODE.properties["next"], whole.fields["next"], {});
      assert !DeepBelow(components, NODE, whole);
    }
  }
}
