// generator.schemaExample invents a payload by walking the component graph that
// contract.validateSchema walks to check one. Both cut cycles with a set of the component
// names being resolved.

module Generator {
  import opened Wrappers
  import opened Json
  import opened OpenApi

  const ONE := Num(Float(false, 1.0))

  function Example(components: Components, schema: Option<Schema>, resolving: set<string>): JSON
    decreases components.Keys - resolving, schema
  {
    if schema.None? then Obj(map[])
    else
      var s := schema.value;
      if s.ref != "" then
        if !IsLocal(s.ref) || RefName(s.ref) in resolving || Target(components, RefName(s.ref)).None? then Obj(map[])
        else Example(components, components[RefName(s.ref)], resolving + {RefName(s.ref)})
      else if s.enumeration != [] then s.enumeration[0]
      else if SchemaType(s.typ) == "object" then
        Obj(map name | name in s.properties :: Example(components, s.properties[name], resolving))
      else if SchemaType(s.typ) == "array" then Arr([Example(components, s.items, resolving)])
      else if SchemaType(s.typ) == "integer" || SchemaType(s.typ) == "number" then ONE
      else if SchemaType(s.typ) == "boolean" then Bool(true)
      else if SchemaType(s.typ) == "null" then Null
      else Str("example")
  }

  class Generation {
    const components: Components
    var resolving: set<string>

    constructor (components: Components)
      ensures this.components == components && resolving == {}
    {
      this.components := components;
      resolving := {};
    }

    // generator.schemaExample.
    method SchemaExample(schema: Option<Schema>) returns (value: JSON)
      modifies this
      ensures resolving == old(resolving)
      ensures value == Example(components, schema, old(resolving))
      decreases components.Keys - resolving, schema
    {
      if schema.None? {
        return Obj(map[]);
      }
      var s := schema.value;
      if s.ref != "" {
        if !IsLocal(s.ref) || RefName(s.ref) in resolving {
          return Obj(map[]);
        }
        var name := RefName(s.ref);
        ghost var before := resolving;
        resolving := resolving + {name};
        if Target(components, name).None? {
          value := Obj(map[]);
        } else {
          assert name in components.Keys - before;
          value := SchemaExample(components[name]);
        }
        resolving := resolving - {name};
        assert resolving == before;
        return;
      }
      if |s.enumeration| > 0 {
        return s.enumeration[0];
      }
      match SchemaType(s.typ)
      case "object" =>
        var fields: map<string, JSON> := map[];
        var names := s.properties.Keys;
        while names != {}
          invariant names <= s.properties.Keys && resolving == old(resolving)
          invariant fields.Keys == s.properties.Keys - names
          invariant forall name :: name in fields ==> fields[name] == Example(components, s.properties[name], resolving)
        {
          var name :| name in names;
          var child := SchemaExample(s.properties[name]);
          fields := fields[name := child];
          names := names - {name};
        }
        value := Obj(fields);
      case "array" =>
        var item := SchemaExample(s.items);
        value := Arr([item]);
      case "integer" => value := ONE;
      case "number" => value := ONE;
      case "boolean" => value := Bool(true);
      case "null" => value := Null;
      case _ => value := Str("example");
    }
  }

  // Which payload is invented: the first listed value; otherwise an object has exactly the
  // declared names, each with the example of its own schema, an array one such element, and
  // a scalar is 1, true, null or the text "example".
  lemma ExampleShape(components: Components, s: Schema, resolving: set<string>, name: string)
    requires s.ref == ""
    ensures var e, typ := Example(components, Some(s), resolving), SchemaType(s.typ);
      if s.enumeration != [] then e == s.enumeration[0]
      else if typ == "object" then
        e.Obj? && Lookup(e, [Key(name)]) ==
          if name in s.properties then Some(Example(components, s.properties[name], resolving)) else None
      else if typ == "array" then
        e.Arr? && |e.items| == 1 && Lookup(e, [Index(0)]) == Some(Example(components, s.items, resolving))
      else
        e == if typ in {"integer", "number"} then Num(Float(false, 1.0)) else if typ == "boolean" then Bool(true)
             else if typ == "null" then Null else Str("example")
  {
    var e := Example(components, Some(s), resolving);
    if e.Obj? && name in e.fields {
      assert Lookup(e.fields[name], []) == Some(e.fields[name]);
    }
    if e.Arr? && e.items != [] {
      assert Lookup(e.items[0], []) == Some(e.items[0]);
    }
  }

  // ---------------------------------------------------------------- the generator meets the validator

  // What has to be true of the schemas the generator visits: references are local and
  // present, an enumeration starts with a value its own schema admits, and an object
  // declares the names it requires.
  predicate Generable(components: Components, schema: Option<Schema>, resolving: set<string>)
    decreases components.Keys - resolving, schema
  {
    schema.None? ||
    var s := schema.value;
    if s.ref != "" then
      IsLocal(s.ref) &&
      (RefName(s.ref) in resolving ||
       (Target(components, RefName(s.ref)).Some? &&
        Generable(components, components[RefName(s.ref)], resolving + {RefName(s.ref)})))
    else if s.enumeration != [] then Conforms(components, schema, s.enumeration[0], resolving)
    else if SchemaType(s.typ) == "object" then
      && (forall name :: name in s.required ==> name in s.properties)
      && (forall name :: name in s.properties ==> Generable(components, s.properties[name], resolving))
    else SchemaType(s.typ) == "array" ==> Generable(components, s.items, resolving)
  }

  // The generated example conforms exactly when the visited schemas are generable,
  // for every component graph, cyclic or not.
  lemma {:induction false} ExampleConformsExactly(components: Components, schema: Option<Schema>,
      resolving: set<string>)
    ensures Conforms(components, schema, Example(components, schema, resolving), resolving)
       <==> Generable(components, schema, resolving)
    decreases components.Keys - resolving, schema
  {
    if schema.Some? {
      var s := schema.value;
      if s.ref != "" {
        if IsLocal(s.ref) && RefName(s.ref) !in resolving && Target(components, RefName(s.ref)).Some? {
          ExampleConformsExactly(components, components[RefName(s.ref)], resolving + {RefName(s.ref)});
        }
      } else if s.enumeration == [] {
        if SchemaType(s.typ) == "object" {
          forall name | name in s.properties
            ensures
              Conforms(components, s.properties[name], Example(components, s.properties[name], resolving), resolving)
              <==> Generable(components, s.properties[name], resolving)
          {
            ExampleConformsExactly(components, s.properties[name], resolving);
          }
        } else if SchemaType(s.typ) == "array" {
          var item := Example(components, s.items, resolving);
          ExampleConformsExactly(components, s.items, resolving);
          assert Example(components, schema, resolving) == Arr([item]) && [item][0] == item;
          assert FitsHere(s, Arr([item]));
        } else {
          assert IsInteger(ONE.num);
          var example := Example(components, schema, resolving);
          assert example.IsScalar() && FitsHere(s, example);
        }
      }
    }
  }

  // Opening more components only skips checks.
  lemma {:induction false} OpenComponentsAreSkipped(components: Components, schema: Option<Schema>, value: JSON,
                                                    resolving: set<string>, more: set<string>)
    requires resolving <= more && Conforms(components, schema, value, resolving)
    ensures Conforms(components, schema, value, more)
    decreases components.Keys - more, schema
  {
    if schema.Some? {
      var s := schema.value;
      if s.ref != "" {
        var name := RefName(s.ref);
        if name !in more {
          OpenComponentsAreSkipped(components, components[name], value, resolving + {name}, more + {name});
        }
      } else if !(value.Null? && s.nullable) {
        match value
        case Obj(fields) =>
          forall name | name in s.properties && name in fields
            ensures Conforms(components, s.properties[name], fields[name], more)
          {
            OpenComponentsAreSkipped(components, s.properties[name], fields[name], resolving, more);
          }
        case Arr(items) =>
          forall i | 0 <= i < |items|
            ensures Conforms(components, s.items, items[i], more)
          {
            OpenComponentsAreSkipped(components, s.items, items[i], resolving, more);
          }
        case _ =>
      }
    }
  }

  // The same conditions, schema by schema, as an author can check them on the document.
  predicate WellWritten(components: Components, schema: Option<Schema>) {
    schema.None? ||
    var s := schema.value;
    if s.ref != "" then IsLocal(s.ref) && Target(components, RefName(s.ref)).Some?
    else if s.enumeration != [] then Conforms(components, schema, s.enumeration[0], {})
    else if SchemaType(s.typ) == "object" then
      && (forall name :: name in s.required ==> name in s.properties)
      && (forall name :: name in s.properties ==> WellWritten(components, s.properties[name]))
    else SchemaType(s.typ) == "array" ==> WellWritten(components, s.items)
  }

  lemma {:induction false} WellWrittenIsGenerable(components: Components, schema: Option<Schema>,
      resolving: set<string>)
    requires WellWritten(components, schema)
    requires forall name :: name in components ==> WellWritten(components, components[name])
    ensures Generable(components, schema, resolving)
    decreases components.Keys - resolving, schema
  {
    if schema.Some? {
      var s := schema.value;
      if s.ref != "" {
        if RefName(s.ref) !in resolving {
          WellWrittenIsGenerable(components, components[RefName(s.ref)], resolving + {RefName(s.ref)});
        }
      } else if s.enumeration != [] {
        OpenComponentsAreSkipped(components, schema, s.enumeration[0], {}, resolving);
      } else if SchemaType(s.typ) == "object" {
        forall name | name in s.properties
          ensures Generable(components, s.properties[name], resolving)
        {
          WellWrittenIsGenerable(components, s.properties[name], resolving);
        }
      } else if SchemaType(s.typ) == "array" {
        WellWrittenIsGenerable(components, s.items, resolving);
      }
    }
  }

  // In a well-written document, everything the generator produces passes validation.
  lemma GeneratedExamplesConform(components: Components, schema: Option<Schema>)
    requires WellWritten(components, schema)
    requires forall name :: name in components ==> WellWritten(components, components[name])
    ensures Conforms(components, schema, Example(components, schema, {}), {})
  {
    WellWrittenIsGenerable(components, schema, {});
    ExampleConformsExactly(components, schema, {});
  }

  function Plain(typ: string, required: seq<string>, properties: map<string, Option<Schema>>): Schema {
    Schema("", Str(typ), required, properties, None, [], false)
  }

  // An object that requires a name it does not declare gets an example that is refused.
  lemma UndeclaredRequiredNameIsRefused()
    ensures var s := Some(Plain("object", ["id"], map[]));
      !Conforms(map[], s, Example(map[], s, {}), {})
  {
    var s := Some(Plain("object", ["id"], map[]));
    assert "id" in s.value.required;
    ExampleConformsExactly(map[], s, {});
  }
}
