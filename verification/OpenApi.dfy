// contract.validateSchema checks a decoded payload against a schema of a possibly cyclic
// component graph. It cuts cycles with a set of the component names being resolved.

module OpenApi {
  import opened Wrappers
  import opened Json
  import opened JsonPath

  // A schema as decoded from YAML. The type is a string or a list; property and
  // component entries can be null.
  datatype Schema = Schema(
    ref: string,
    typ: JSON,
    required: seq<string>,
    properties: map<string, Option<Schema>>,
    items: Option<Schema>,
    enumeration: seq<JSON>,
    nullable: bool)

  type Components = map<string, Option<Schema>>

  const PREFIX := "#/components/schemas/"

  predicate IsLocal(ref: string) {
    PREFIX <= ref
  }

  function RefName(ref: string): string
    requires IsLocal(ref)
  {
    ref[|PREFIX|..]
  }

  function Target(components: Components, name: string): Option<Schema> {
    if name in components then components[name] else None
  }

  // schemaType: the declared type, or the first entry of a type list that is not "null".
  function SchemaType(typ: JSON): string {
    match typ
    case Str(text) => text
    case Arr(items) => FirstType(items)
    case _ => ""
  }

  function FirstType(items: seq<JSON>): string {
    if items == [] then ""
    else if items[0].Str? && items[0].text != "null" then items[0].text
    else FirstType(items[1..])
  }

  // A double that survives conversion to a 64-bit integer and back.
  predicate IsInteger(f: Float) {
    f.magnitude.Floor as real == f.magnitude &&
    (f.magnitude < 9223372036854775808.0 || (f.negative && f.magnitude == 9223372036854775808.0))
  }

  predicate MatchesType(expected: string, value: JSON) {
    if expected == "object" then value.Obj?
    else if expected == "array" then value.Arr?
    else if expected == "string" then value.Str?
    else if expected == "number" then value.Num?
    else if expected == "integer" then value.Num? && IsInteger(value.num)
    else if expected == "boolean" then value.Bool?
    else if expected == "null" then value.Null?
    else true
  }

  // ---------------------------------------------------------------- validation

  // What it means for a payload to conform while the components in resolving are open.
  predicate Conforms(components: Components, schema: Option<Schema>, value: JSON, resolving: set<string>)
    decreases components.Keys - resolving, schema
  {
    schema.None? ||
    var s := schema.value;
    if s.ref != "" then
      IsLocal(s.ref) &&
      var name := RefName(s.ref);
      (name in resolving ||
       (Target(components, name).Some? && Conforms(components, components[name], value, resolving + {name})))
    else
      (value.Null? && s.nullable) ||
      (FitsHere(s, value) && ConformsBelow(components, s, value, resolving))
  }

  // The members of an object and the elements of an array conform to their own schemas.
  predicate ConformsBelow(components: Components, s: Schema, value: JSON, resolving: set<string>)
    decreases components.Keys - resolving, s
  {
    match value
    case Obj(fields) =>
      forall name :: name in s.properties && name in fields ==>
        Conforms(components, s.properties[name], fields[name], resolving)
    case Arr(items) => forall i :: 0 <= i < |items| ==> Conforms(components, s.items, items[i], resolving)
    case _ => true
  }

  // Type, enumeration and required names, without looking below value.
  predicate FitsHere(s: Schema, value: JSON) {
    && (SchemaType(s.typ) != "" ==> MatchesType(SchemaType(s.typ), value))
    && (s.enumeration != [] ==> value in s.enumeration)
    && (value.Obj? ==> forall name :: name in s.required ==> name in value.fields)
  }

  datatype Violation =
    | ExternalReference(path: string, ref: string)
    | MissingReference(path: string, name: string)
    | WrongType(path: string, expected: string)
    | NotInEnumeration(path: string)
    | MissingRequired(path: string, name: string)

  // The violations of a payload, each as often as it occurs, whatever order properties are
  // visited in.
  ghost function Found(components: Components, schema: Option<Schema>, value: JSON, path: string,
                       resolving: set<string>): multiset<Violation>
    decreases components.Keys - resolving, schema
  {
    if schema.None? then multiset{}
    else if schema.value.ref != "" then FoundAtReference(components, schema.value, value, path, resolving)
    else if value.Null? && schema.value.nullable then multiset{}
    else FoundPlain(components, schema.value, value, path, resolving)
  }

  ghost function FoundAtReference(components: Components, s: Schema, value: JSON, path: string,
                                  resolving: set<string>): multiset<Violation>
    decreases components.Keys - resolving, s, 2
  {
    if !IsLocal(s.ref) then multiset{ExternalReference(path, s.ref)}
    else if RefName(s.ref) in resolving then multiset{}
    else if Target(components, RefName(s.ref)).None? then multiset{MissingReference(path, RefName(s.ref))}
    else Found(components, components[RefName(s.ref)], value, path, resolving + {RefName(s.ref)})
  }

  ghost function FoundPlain(components: Components, s: Schema, value: JSON, path: string,
                            resolving: set<string>): multiset<Violation>
    decreases components.Keys - resolving, s, 2
  {
    if SchemaType(s.typ) != "" && !MatchesType(SchemaType(s.typ), value) then
      multiset{WrongType(path, SchemaType(s.typ))}
    else NotEnumerated(s, value, path) + FoundBelow(components, s, value, path, resolving)
  }

  ghost function NotEnumerated(s: Schema, value: JSON, path: string): multiset<Violation> {
    if s.enumeration != [] && value !in s.enumeration then multiset{NotInEnumeration(path)} else multiset{}
  }

  ghost function FoundBelow(components: Components, s: Schema, value: JSON, path: string,
                            resolving: set<string>): multiset<Violation>
    decreases components.Keys - resolving, s, 1
  {
    match value
    case Obj(fields) =>
      MissingNames(s.required, fields, path) +
      FoundInProperties(components, s, fields, s.properties.Keys, path, resolving)
    case Arr(items) => FoundInItems(components, s, items, path, resolving)
    case _ => multiset{}
  }

  ghost function FoundInProperty(components: Components, s: Schema, fields: map<string, JSON>, name: string,
                                 path: string, resolving: set<string>): multiset<Violation>
    requires name in s.properties
    decreases components.Keys - resolving, s, 0, 0
  {
    if name in fields then Found(components, s.properties[name], fields[name], path + "." + name, resolving)
    else multiset{}
  }

  ghost function Pick(names: set<string>): (name: string)
    requires names != {}
    ensures name in names
  {
    var name :| name in names; name
  }

  ghost function FoundInProperties(components: Components, s: Schema, fields: map<string, JSON>, names: set<string>,
                                   path: string, resolving: set<string>): multiset<Violation>
    requires names <= s.properties.Keys
    decreases components.Keys - resolving, s, 0, |names|
  {
    if names == {} then multiset{}
    else
      FoundInProperty(components, s, fields, Pick(names), path, resolving) +
      FoundInProperties(components, s, fields, names - {Pick(names)}, path, resolving)
  }

  ghost function FoundInItems(components: Components, s: Schema, items: seq<JSON>, path: string,
                              resolving: set<string>): multiset<Violation>
    decreases components.Keys - resolving, s, 0, |items|
  {
    if items == [] then multiset{}
    else
      var last := |items| - 1;
      FoundInItems(components, s, items[..last], path, resolving) +
      Found(components, s.items, items[last], path + "[" + Itoa(last) + "]", resolving)
  }

  ghost function MissingNames(required: seq<string>, fields: map<string, JSON>, path: string): multiset<Violation> {
    if required == [] then multiset{}
    else
      var last := |required| - 1;
      MissingNames(required[..last], fields, path) +
      if required[last] in fields then multiset{} else multiset{MissingRequired(path, required[last])}
  }

  // A payload conforms exactly when nothing is found.
  lemma {:induction false} ConformsIffNothingFound(components: Components, schema: Option<Schema>, value: JSON,
                                                   path: string, resolving: set<string>)
    ensures Conforms(components, schema, value, resolving) <==>
      |Found(components, schema, value, path, resolving)| == 0
    decreases components.Keys - resolving, schema
  {
    if schema.Some? {
      var s := schema.value;
      if s.ref != "" {
        if IsLocal(s.ref) && RefName(s.ref) !in resolving && Target(components, RefName(s.ref)).Some? {
          ConformsIffNothingFound(components, components[RefName(s.ref)], value, path, resolving + {RefName(s.ref)});
        }
      } else {
        PlainIffNothingFound(components, s, value, path, resolving);
      }
    }
  }

  lemma {:induction false} PlainIffNothingFound(components: Components, s: Schema, value: JSON,
                                                path: string, resolving: set<string>)
    ensures |FoundPlain(components, s, value, path, resolving)| == 0 <==>
      FitsHere(s, value) && ConformsBelow(components, s, value, resolving)
    decreases components.Keys - resolving, s, 2
  {
    BelowIffNothingFound(components, s, value, path, resolving);
    var here := NotEnumerated(s, value, path);
    assert |here| == 0 <==> s.enumeration == [] || value in s.enumeration;
    assert |here + FoundBelow(components, s, value, path, resolving)| ==
      |here| + |FoundBelow(components, s, value, path, resolving)|;
  }

  lemma {:induction false} BelowIffNothingFound(components: Components, s: Schema, value: JSON,
                                                path: string, resolving: set<string>)
    ensures |FoundBelow(components, s, value, path, resolving)| == 0 <==>
      && (value.Obj? ==> forall name :: name in s.required ==> name in value.fields)
      && ConformsBelow(components, s, value, resolving)
    decreases components.Keys - resolving, s, 1
  {
    match value
    case Obj(fields) =>
      NoNamesMissing(s.required, fields, path);
      PropertiesIffNothingFound(components, s, fields, s.properties.Keys, path, resolving);
    case Arr(items) => ItemsIffNothingFound(components, s, items, path, resolving);
    case _ =>
  }

  lemma {:induction false} NoNamesMissing(required: seq<string>, fields: map<string, JSON>, path: string)
    ensures (forall name :: name in required ==> name in fields) <==> |MissingNames(required, fields, path)| == 0
  {
    if required != [] {
      var last := |required| - 1;
      NoNamesMissing(required[..last], fields, path);
      assert required == required[..last] + [required[last]];
    }
  }

  lemma {:induction false} PropertiesIffNothingFound(components: Components, s: Schema, fields: map<string, JSON>,
                                                     names: set<string>, path: string, resolving: set<string>)
    requires names <= s.properties.Keys
    ensures (forall name :: name in names && name in fields ==>
               Conforms(components, s.properties[name], fields[name], resolving)) <==>
      |FoundInProperties(components, s, fields, names, path, resolving)| == 0
    decreases components.Keys - resolving, s, 0, |names|
  {
    if names != {} {
      var name := Pick(names);
      PropertiesIffNothingFound(components, s, fields, names - {name}, path, resolving);
      if name in fields {
        ConformsIffNothingFound(components, s.properties[name], fields[name], path + "." + name, resolving);
      }
    }
  }

  lemma {:induction false} ItemsIffNothingFound(components: Components, s: Schema, items: seq<JSON>,
                                                path: string, resolving: set<string>)
    ensures (forall i :: 0 <= i < |items| ==> Conforms(components, s.items, items[i], resolving)) <==>
      |FoundInItems(components, s, items, path, resolving)| == 0
    decreases components.Keys - resolving, s, 0, |items|
  {
    if items != [] {
      var last := |items| - 1;
      var front, own := items[..last], path + "[" + Itoa(last) + "]";
      ItemsIffNothingFound(components, s, front, path, resolving);
      ConformsIffNothingFound(components, s.items, items[last], own, resolving);
      assert items == front + [items[last]];
      assert forall i :: 0 <= i < last ==> front[i] == items[i];
    }
  }

  // Any property may be visited first.
  lemma {:induction false} VisitFirst(components: Components, s: Schema, fields: map<string, JSON>,
                                      names: set<string>, name: string, path: string, resolving: set<string>)
    requires names <= s.properties.Keys && name in names
    ensures FoundInProperties(components, s, fields, names, path, resolving) ==
      FoundInProperty(components, s, fields, name, path, resolving) +
      FoundInProperties(components, s, fields, names - {name}, path, resolving)
    decreases |names|
  {
    var other := Pick(names);
    if other != name {
      VisitFirst(components, s, fields, names - {other}, name, path, resolving);
      VisitFirst(components, s, fields, names - {name}, other, path, resolving);
      assert names - {other} - {name} == names - {name} - {other};
    }
  }

  ghost predicate Extends(before: seq<Violation>, after: seq<Violation>, found: multiset<Violation>) {
    before <= after && multiset(after) == multiset(before) + found
  }

  lemma ExtendsTwice(before: seq<Violation>, mid: seq<Violation>, after: seq<Violation>,
                     first: multiset<Violation>, second: multiset<Violation>)
    requires Extends(before, mid, first) && Extends(mid, after, second)
    ensures Extends(before, after, first + second)
  {}

  // One validation of one payload: the violations found so far and the open components.
  class Validation {
    const components: Components
    var violations: seq<Violation>
    var resolving: set<string>

    constructor (components: Components)
      ensures this.components == components && violations == [] && resolving == {}
    {
      this.components := components;
      violations, resolving := [], {};
    }

    // Exactly these violations have been added since before.
    ghost predicate Added(before: seq<Violation>, found: multiset<Violation>)
      reads this
    {
      Extends(before, violations, found)
    }

    method Report(v: Violation)
      modifies `violations
      ensures Added(old(violations), multiset{v})
    {
      violations := violations + [v];
    }

    // contract.validateSchema.
    method ValidateSchema(schema: Option<Schema>, value: JSON, path: string)
      modifies this
      ensures resolving == old(resolving)
      ensures Added(old(violations), Found(components, schema, value, path, old(resolving)))
      decreases components.Keys - resolving, schema, 1
    {
      if schema.None? {
        return;
      }
      if schema.value.ref != "" {
        ValidateReference(schema.value, value, path);
        return;
      }
      if value.Null? && schema.value.nullable {
        return;
      }
      ValidatePlain(schema.value, value, path);
    }

    // Its branch for a reference.
    method ValidateReference(s: Schema, value: JSON, path: string)
      modifies this
      ensures resolving == old(resolving)
      ensures Added(old(violations), FoundAtReference(components, s, value, path, old(resolving)))
      decreases components.Keys - resolving, s, 2
    {
      if !IsLocal(s.ref) {
        Report(ExternalReference(path, s.ref));
        return;
      }
      var name := RefName(s.ref);
      if name in resolving {
        return;
      }
      var target := Target(components, name);
      if target.None? {
        Report(MissingReference(path, name));
        return;
      }
      ghost var before := resolving;
      assert name in components.Keys - resolving;
      resolving := resolving + {name};
      ValidateSchema(target, value, path);
      resolving := resolving - {name};
      assert resolving == before;
    }

    // Its branch for a schema of its own.
    method ValidatePlain(s: Schema, value: JSON, path: string)
      modifies this
      ensures resolving == old(resolving)
      ensures Added(old(violations), FoundPlain(components, s, value, path, old(resolving)))
      decreases components.Keys - resolving, s, 2
    {
      var expectedType := SchemaType(s.typ);
      if expectedType != "" && !MatchesType(expectedType, value) {
        Report(WrongType(path, expectedType));
        return;
      }
      if |s.enumeration| > 0 && value !in s.enumeration {
        Report(NotInEnumeration(path));
      }
      ghost var mid := violations;
      assert Added(old(violations), NotEnumerated(s, value, path));
      ValidateBelow(s, value, path);
      ExtendsTwice(old(violations), mid, violations,
                   NotEnumerated(s, value, path), FoundBelow(components, s, value, path, old(resolving)));
    }

    method ValidateBelow(s: Schema, value: JSON, path: string)
      modifies this
      ensures resolving == old(resolving)
      ensures Added(old(violations), FoundBelow(components, s, value, path, old(resolving)))
      decreases components.Keys - resolving, s, 1
    {
      match value
      case Obj(fields) => ValidateObject(s, fields, path);
      case Arr(items) => ValidateItems(s, items, path);
      case _ =>
    }

    method ValidateObject(s: Schema, fields: map<string, JSON>, path: string)
      modifies this
      ensures resolving == old(resolving)
      ensures Added(old(violations),
                    MissingNames(s.required, fields, path) +
                    FoundInProperties(components, s, fields, s.properties.Keys, path, old(resolving)))
      decreases components.Keys - resolving, s, 0
    {
      CheckRequired(s.required, fields, path);
      ghost var all := MissingNames(s.required, fields, path) +
        FoundInProperties(components, s, fields, s.properties.Keys, path, resolving);
      var names := s.properties.Keys;
      while names != {}
        invariant names <= s.properties.Keys && resolving == old(resolving) && old(violations) <= violations
        invariant multiset(violations) + FoundInProperties(components, s, fields, names, path, resolving) ==
          multiset(old(violations)) + all
      {
        var name :| name in names;
        VisitFirst(components, s, fields, names, name, path, resolving);
        if name in fields {
          ValidateSchema(s.properties[name], fields[name], path + "." + name);
        }
        names := names - {name};
      }
    }

    method CheckRequired(required: seq<string>, fields: map<string, JSON>, path: string)
      modifies `violations
      ensures Added(old(violations), MissingNames(required, fields, path))
    {
      for n := 0 to |required|
        invariant Added(old(violations), MissingNames(required[..n], fields, path))
      {
        assert required[..n + 1][..n] == required[..n];
        if required[n] !in fields {
          Report(MissingRequired(path, required[n]));
        }
      }
      assert required[..|required|] == required;
    }

    method ValidateItems(s: Schema, items: seq<JSON>, path: string)
      modifies this
      ensures resolving == old(resolving)
      ensures Added(old(violations), FoundInItems(components, s, items, path, old(resolving)))
      decreases components.Keys - resolving, s, 0
    {
      for index := 0 to |items|
        invariant resolving == old(resolving)
        invariant Added(old(violations), FoundInItems(components, s, items[..index], path, resolving))
      {
        assert items[..index + 1][..index] == items[..index];
        ValidateSchema(s.items, items[index], path + "[" + Itoa(index) + "]");
      }
      assert items[..|items|] == items;
    }
  }

  // ---------------------------------------------------------------- what the types mean

  lemma TypesMean(value: JSON, other: string)
    ensures MatchesType("object", value) <==> value.Obj?
    ensures MatchesType("array", value) <==> value.Arr?
    ensures MatchesType("string", value) <==> value.Str?
    ensures MatchesType("number", value) <==> value.Num?
    ensures MatchesType("boolean", value) <==> value.Bool?
    ensures MatchesType("null", value) <==> value.Null?
    ensures other !in {"object", "array", "string", "number", "integer", "boolean", "null"} ==>
      MatchesType(other, value)
  {}

  // An integer is a number that equals a 64-bit integer.
  lemma IntegersMean(value: JSON)
    ensures MatchesType("integer", value) <==>
      value.Num? && exists n: int ::
        -0x8000_0000_0000_0000 <= n < 0x8000_0000_0000_0000 && IsValue(value.num, n)
  {
    if value.Num? && IsInteger(value.num) {
      var n := IntegerOf(value.num);
    }
    if value.Num? && exists n: int :: -0x8000_0000_0000_0000 <= n < 0x8000_0000_0000_0000 && IsValue(value.num, n) {
      var n: int :| -0x8000_0000_0000_0000 <= n < 0x8000_0000_0000_0000 && IsValue(value.num, n);
      IntegerWhen(value.num, n);
    }
  }

  // The number stands for the integer n.
  predicate IsValue(f: Float, n: int) {
    f.magnitude == (if f.negative then -n else n) as real
  }

  lemma IntegerOf(f: Float) returns (n: int)
    requires IsInteger(f)
    ensures -0x8000_0000_0000_0000 <= n < 0x8000_0000_0000_0000 && IsValue(f, n)
  {
    var m := f.magnitude.Floor;
    n := if f.negative then -m else m;
    assert m as real == f.magnitude;
  }

  lemma IntegerWhen(f: Float, n: int)
    requires -0x8000_0000_0000_0000 <= n < 0x8000_0000_0000_0000 && IsValue(f, n)
    ensures IsInteger(f)
  {
    var m := if f.negative then -n else n;
    assert f.magnitude.Floor == m;
  }

  // The declared type of a list of types is its first entry other than "null".
  lemma {:induction false} FirstTypeExactly(items: seq<JSON>, i: nat)
    requires i < |items| && items[i].Str? && items[i].text != "null"
    requires forall j :: 0 <= j < i ==> !items[j].Str? || items[j].text == "null"
    ensures SchemaType(Arr(items)) == items[i].text
    decreases i
  {
    if i > 0 {
      FirstTypeExactly(items[1..], i - 1);
    }
  }
}
